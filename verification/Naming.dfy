/**
 The names a generated artifact binds (tools/vocabulary/generate.py): a lossy
 spelling, made safe by refusing a registry in which two claims meet.
 */
module Naming {
  import opened Wrappers
  import opened Characters

  // ----- `_identifier` ---------------------------------------------------------

  predicate IsAlnum(c: char) {
    IsDigit(c) || 'A' <= c <= 'Z' || 'a' <= c <= 'z'
  }

  function DropOthers(text: string): (r: string)
    ensures |r| <= |text|
    ensures r == "" || IsAlnum(r[0])
  {
    if text == "" || IsAlnum(text[0]) then text else DropOthers(text[1..])
  }

  /** `re.sub(r"[^0-9A-Za-z]+", "_", text)` */
  function Collapse(text: string): string
    decreases |text|
  {
    if text == "" then ""
    else if IsAlnum(text[0]) then [text[0]] + Collapse(text[1..])
    else "_" + Collapse(DropOthers(text[1..]))
  }

  function StripLeft(text: string): string {
    if text != "" && text[0] == '_' then StripLeft(text[1..]) else text
  }

  function StripRight(text: string): string {
    if text != "" && text[|text| - 1] == '_' then StripRight(text[..|text| - 1]) else text
  }

  function UpperChar(c: char): char {
    if 'a' <= c <= 'z' then (c as int - 'a' as int + 'A' as int) as char else c
  }

  function Upper(text: string): (r: string) {
    seq(|text|, i requires 0 <= i < |text| => UpperChar(text[i]))
  }

  /** A registry token as a constant's name; `None` where the source raises. */
  function Identifier(text: string): Option<string> {
    var name := Upper(StripRight(StripLeft(Collapse(text))));
    if name == "" || IsDigit(name[0]) then None else Some(name)
  }

  // ----- `_pascal_case` ----------------------------------------------------------

  function RunLength(text: string): (n: nat)
    ensures n <= |text|
    ensures forall i :: 0 <= i < n ==> IsAlnum(text[i])
    ensures n < |text| ==> !IsAlnum(text[n])
  {
    if text == "" || !IsAlnum(text[0]) then 0 else 1 + RunLength(text[1..])
  }

  /** The non-empty parts of `re.split(r"[^0-9A-Za-z]+", text)`. */
  function Words(text: string): seq<string>
    decreases |text|
  {
    if text == "" then []
    else if !IsAlnum(text[0]) then Words(text[1..])
    else [text[..RunLength(text)]] + Words(text[RunLength(text)..])
  }

  function Capitalised(words: seq<string>): string {
    if words == [] then ""
    else
      var first := words[0];
      (if first == "" then "" else [UpperChar(first[0])] + first[1..]) + Capitalised(words[1..])
  }

  function PascalCase(text: string): Option<string> {
    var name := Capitalised(Words(text));
    if name == "" || IsDigit(name[0]) then None else Some(name)
  }

  // ----- exactly how lossy `_identifier` is ----------------------------------------

  function Joined(words: seq<string>): string {
    if words == [] then ""
    else if |words| == 1 then words[0]
    else words[0] + "_" + Joined(words[1..])
  }

  predicate AreWords(words: seq<string>) {
    forall i :: 0 <= i < |words| ==> words[i] != "" && forall c :: c in words[i] ==> IsAlnum(c)
  }

  lemma {:induction false} WordsAreWords(text: string)
    ensures AreWords(Words(text))
    decreases |text|
  {
    if text == "" {
    } else {
      if IsAlnum(text[0]) {
        WordsAreWords(text[RunLength(text)..]);
      } else {
        WordsAreWords(text[1..]);
      }
    }
  }

  lemma {:induction false} WordsSkipOthers(text: string)
    ensures Words(DropOthers(text)) == Words(text)
  {
    if text != "" && !IsAlnum(text[0]) {
      WordsSkipOthers(text[1..]);
    }
  }

  lemma {:induction false} CollapseRun(run: string, rest: string)
    requires forall c :: c in run ==> IsAlnum(c)
    ensures Collapse(run + rest) == run + Collapse(rest)
  {
    if run == "" {
      assert run + rest == rest;
    } else {
      assert (run + rest)[1..] == run[1..] + rest;
      CollapseRun(run[1..], rest);
      assert [run[0]] + (run[1..] + Collapse(rest)) == run + Collapse(rest);
    }
  }

  lemma {:induction false} StripRightAppend(a: string, b: string)
    requires StripRight(b) != ""
    ensures StripRight(a + b) == a + StripRight(b)
  {
    if b[|b| - 1] == '_' {
      assert (a + b)[..|a + b| - 1] == a + b[..|b| - 1];
      StripRightAppend(a, b[..|b| - 1]);
    }
  }

  lemma StripRightRun(run: string)
    requires run != "" && forall c :: c in run ==> IsAlnum(c)
    ensures StripRight(run) == run && StripRight(run + "_") == run
  {
    assert IsAlnum(run[|run| - 1]);
    assert (run + "_")[..|run|] == run;
  }

  lemma {:induction false} JoinedStartsWithAlnum(words: seq<string>)
    requires AreWords(words) && words != []
    ensures Joined(words) != "" && IsAlnum(Joined(words)[0])
  {
    assert words[0][0] in words[0];
  }

  lemma {:induction false} CollapseJoins(text: string)
    requires text == "" || IsAlnum(text[0])
    ensures StripRight(Collapse(text)) == Joined(Words(text))
    decreases |text|
  {
    if text == "" {
    } else {
      var n := RunLength(text);
      var run, rest := text[..n], text[n..];
      assert text == run + rest && n > 0;
      CollapseRun(run, rest);
      StripRightRun(run);
      if rest == "" {
        assert Words(rest) == [] && Collapse(rest) == "" && run + "" == run;
        assert Words(text) == [run];
      } else {
        var next := DropOthers(rest[1..]);
        WordsSkipOthers(rest[1..]);
        assert Words(rest) == Words(next);
        assert Words(text) == [run] + Words(next);
        assert Collapse(text) == run + ("_" + Collapse(next));
        CollapseJoins(next);
        if next == "" {
          assert Collapse(text) == run + "_";
        } else {
          WordsAreWords(next);
          assert Words(next) != [];
          JoinedStartsWithAlnum(Words(next));
          assert run + ("_" + Collapse(next)) == (run + "_") + Collapse(next);
          StripRightAppend(run + "_", Collapse(next));
          assert Words(text)[1..] == Words(next);
        }
      }
    }
  }

  lemma NormalForm(text: string)
    ensures StripRight(StripLeft(Collapse(text))) == Joined(Words(text))
  {
    var next := DropOthers(text);
    WordsSkipOthers(text);
    CollapseJoins(next);
    assert Collapse(next) != "" ==> IsAlnum(Collapse(next)[0]);
    if text != "" && !IsAlnum(text[0]) {
      assert Collapse(text) == "_" + Collapse(next);
      assert ("_" + Collapse(next))[1..] == Collapse(next);
    }
  }

  function UpperWords(words: seq<string>): seq<string> {
    seq(|words|, i requires 0 <= i < |words| => Upper(words[i]))
  }

  lemma UpperConcat(a: string, b: string)
    ensures Upper(a + b) == Upper(a) + Upper(b)
  {
  }

  lemma {:induction false} UpperJoined(words: seq<string>)
    ensures Upper(Joined(words)) == Joined(UpperWords(words))
  {
    if |words| <= 1 {
    } else {
      UpperJoined(words[1..]);
      assert UpperWords(words)[1..] == UpperWords(words[1..]);
      UpperConcat(words[0] + "_", Joined(words[1..]));
      UpperConcat(words[0], "_");
      assert Upper("_") == "_";
    }
  }

  lemma UpperKeepsWords(words: seq<string>)
    requires AreWords(words)
    ensures AreWords(UpperWords(words))
  {
    forall i | 0 <= i < |words|
      ensures Upper(words[i]) != "" && forall c :: c in Upper(words[i]) ==> IsAlnum(c)
    {
      forall k | 0 <= k < |words[i]|
        ensures IsAlnum(Upper(words[i])[k])
      {
        assert words[i][k] in words[i];
      }
    }
  }

  lemma {:induction false} RunIsFirstWord(word: string, rest: string)
    requires forall c :: c in word ==> IsAlnum(c)
    requires rest == "" || !IsAlnum(rest[0])
    ensures RunLength(word + rest) == |word|
  {
    if word == "" {
      assert word + rest == rest;
    } else {
      assert (word + rest)[1..] == word[1..] + rest;
      RunIsFirstWord(word[1..], rest);
    }
  }

  lemma {:induction false} WordsOfJoined(words: seq<string>)
    requires AreWords(words)
    ensures Words(Joined(words)) == words
  {
    if words == [] {
    } else {
      var rest := if |words| == 1 then "" else "_" + Joined(words[1..]);
      var text := words[0] + rest;
      assert Joined(words) == text;
      RunIsFirstWord(words[0], rest);
      assert words[0][0] in words[0];
      assert text[..|words[0]|] == words[0] && text[|words[0]|..] == rest;
      WordsOfJoined(words[1..]);
      if |words| > 1 {
        assert rest[1..] == Joined(words[1..]);
      }
      assert words == [words[0]] + words[1..];
    }
  }

  /**
   Two tokens take one constant name exactly when they are the same words,
   letter case apart. Nothing else is lost, and nothing less.
   */
  lemma IdentifierKernel(a: string, b: string)
    requires Identifier(a).Some? && Identifier(b).Some?
    ensures Identifier(a) == Identifier(b) <==> UpperWords(Words(a)) == UpperWords(Words(b))
  {
    NormalForm(a);
    NormalForm(b);
    UpperJoined(Words(a));
    UpperJoined(Words(b));
    WordsAreWords(a);
    WordsAreWords(b);
    UpperKeepsWords(Words(a));
    UpperKeepsWords(Words(b));
    WordsOfJoined(UpperWords(Words(a)));
    WordsOfJoined(UpperWords(Words(b)));
  }

  /** A constant name is its own name: rendering it again changes nothing. */
  lemma IdentifierIsStable(text: string)
    requires Identifier(text).Some?
    ensures Identifier(Identifier(text).value) == Identifier(text)
  {
    var words := UpperWords(Words(text));
    NormalForm(text);
    UpperJoined(Words(text));
    WordsAreWords(text);
    UpperKeepsWords(Words(text));
    WordsOfJoined(words);
    NormalForm(Joined(words));
    assert Upper(Joined(words)) == Joined(words) by {
      UpperJoined(words);
      assert UpperWords(words) == words by {
        assert forall i :: 0 <= i < |words| ==> Upper(words[i]) == words[i];
      }
    }
  }
}

/**
 JSON pointers as the applier writes them (`_escape` in
 tools/known_values/apply.py), and the evaluation that sections 3 and 4 of
 RFC 6901 give them.
 */
module JsonPointer {
  import opened Wrappers
  import opened Characters
  import opened Json

  // ----- writing a reference token ----------------------------------------

  /** `text.replace(target, new)` for a one-character `target`. */
  function ReplaceChar(text: string, target: char, subst: string): string {
    if text == "" then ""
    else (if text[0] == target then subst else [text[0]]) + ReplaceChar(text[1..], target, subst)
  }

  function Escape(key: string): string {
    ReplaceChar(ReplaceChar(key, '~', "~0"), '/', "~1")
  }

  function Digit(n: nat): (c: char)
    requires n < 10
    ensures IsDigit(c)
  {
    ('0' as int + n) as char
  }

  function Decimal(n: nat): (text: string)
    ensures text != "" && forall c :: c in text ==> '0' <= c <= '9'
  {
    if n < 10 then [Digit(n)] else Decimal(n / 10) + [Digit(n % 10)]
  }

  // ----- reading one back: section 4 of RFC 6901 --------------------------

  /** Every non-overlapping occurrence of a two-character `pair`, left to right. */
  function ReplacePair(text: string, pair: string, subst: char): string
    requires |pair| == 2
  {
    if |text| < 2 then text
    else if text[..2] == pair then [subst] + ReplacePair(text[2..], pair, subst)
    else [text[0]] + ReplacePair(text[1..], pair, subst)
  }

  function Unescape(token: string): string {
    ReplacePair(ReplacePair(token, "~1", '/'), "~0", '~')
  }

  function DigitsValue(text: string): nat
    requires forall c :: c in text ==> IsDigit(c)
  {
    if text == "" then 0
    else
      assert IsDigit(text[|text| - 1]);
      10 * DigitsValue(text[..|text| - 1]) + (text[|text| - 1] as int - '0' as int)
  }

  /** An array index: digits without a leading zero. */
  function ParseIndex(token: string): Option<nat> {
    if token == "" || !(forall c :: c in token ==> IsDigit(c)) || (|token| > 1 && token[0] == '0')
    then None
    else Some(DigitsValue(token))
  }

  function Child(node: Json, token: string): Option<Json> {
    match node
    case Array(items) =>
      (match ParseIndex(token)
       case Some(i) => if i < |items| then Some(items[i]) else None
       case None => None)
    case Object(fields) => Get(fields, Unescape(token))
    case _ => None
  }

  function TokenLength(text: string): (n: nat)
    ensures n <= |text|
  {
    if text == "" || text[0] == '/' then 0 else 1 + TokenLength(text[1..])
  }

  function Resolve(node: Json, pointer: string): Option<Json>
    decreases |pointer|
  {
    if pointer == "" then Some(node)
    else if pointer[0] != '/' then None
    else
      var rest := pointer[1..];
      var n := TokenLength(rest);
      match Child(node, rest[..n])
      case Some(child) => Resolve(child, rest[n..])
      case None => None
  }

  // ----- the two agree -----------------------------------------------------

  /** What may follow a token inside a pointer. */
  predicate PointerShaped(text: string) {
    text == "" || text[0] == '/'
  }

  lemma {:induction false} ReplaceCharConcat(a: string, b: string, target: char, subst: string)
    ensures ReplaceChar(a + b, target, subst) == ReplaceChar(a, target, subst) + ReplaceChar(b, target, subst)
  {
    if a == "" {
      assert a + b == b;
    } else {
      assert (a + b)[1..] == a[1..] + b;
      ReplaceCharConcat(a[1..], b, target, subst);
    }
  }

  lemma ReplacePairSkips(c: char, text: string, pair: string, subst: char)
    requires |pair| == 2
    requires c != pair[0] || text == "" || text[0] != pair[1]
    ensures ReplacePair([c] + text, pair, subst) == [c] + ReplacePair(text, pair, subst)
  {
    var whole := [c] + text;
    assert whole[1..] == text;
    if text != "" {
      assert whole[..2] == [c, text[0]];
    }
  }

  function EscapeChar(c: char): string {
    if c == '~' then "~0" else if c == '/' then "~1" else [c]
  }

  lemma EscapeCons(c: char, rest: string)
    ensures Escape([c] + rest) == EscapeChar(c) + Escape(rest)
  {
    var tail := ReplaceChar(rest, '~', "~0");
    assert ([c] + rest)[1..] == rest;
    if c == '~' {
      ReplaceCharConcat("~0", tail, '/', "~1");
      assert ReplaceChar("~0", '/', "~1") == "~0" by {
        assert "~0"[1..] == "0" && "0"[1..] == "";
      }
    } else {
      ReplaceCharConcat([c], tail, '/', "~1");
    }
  }

  lemma TildeIsPassedOver(text: string)
    ensures ReplacePair("~0" + text, "~1", '/') == "~0" + ReplacePair(text, "~1", '/')
  {
    var inner, read := ['0'] + text, ReplacePair(text, "~1", '/');
    ReplacePairSkips('0', text, "~1", '/');
    ReplacePairSkips('~', inner, "~1", '/');
    assert "~0" + text == ['~'] + inner;
    assert "~0" + read == ['~'] + (['0'] + read);
  }

  lemma SlashComesBack(text: string)
    ensures ReplacePair("~1" + text, "~1", '/') == ['/'] + ReplacePair(text, "~1", '/')
  {
    var whole := "~1" + text;
    assert whole[..2] == "~1" && whole[2..] == text;
  }

  /** The first pass gives an escaped slash back, and passes over an escaped tilde. */
  lemma FirstPassOfOne(c: char, text: string)
    ensures ReplacePair(EscapeChar(c) + text, "~1", '/') ==
            (if c == '~' then "~0" else [c]) + ReplacePair(text, "~1", '/')
  {
    if c == '~' {
      TildeIsPassedOver(text);
    } else if c == '/' {
      SlashComesBack(text);
    } else {
      ReplacePairSkips(c, text, "~1", '/');
    }
  }

  lemma {:induction false} FirstPassRestores(key: string)
    ensures ReplacePair(Escape(key), "~1", '/') == ReplaceChar(key, '~', "~0")
  {
    if key == "" {
    } else {
      assert key == [key[0]] + key[1..];
      FirstPassRestores(key[1..]);
      EscapeCons(key[0], key[1..]);
      FirstPassOfOne(key[0], Escape(key[1..]));
    }
  }

  lemma {:induction false} SecondPassRestores(key: string)
    ensures ReplacePair(ReplaceChar(key, '~', "~0"), "~0", '~') == key
  {
    if key == "" {
    } else {
      var rest := ReplaceChar(key[1..], '~', "~0");
      SecondPassRestores(key[1..]);
      if key[0] == '~' {
        assert ("~0" + rest)[..2] == "~0" && ("~0" + rest)[2..] == rest;
      } else {
        ReplacePairSkips(key[0], rest, "~0", '~');
      }
    }
  }

  /** Escaping loses nothing: RFC 6901's two substitutions, in its order, undo it. */
  lemma UnescapeEscape(key: string)
    ensures Unescape(Escape(key)) == key
  {
    FirstPassRestores(key);
    SecondPassRestores(key);
  }

  lemma {:induction false} ReplaceCharAvoids(text: string, target: char, subst: string)
    requires target !in subst
    ensures target !in ReplaceChar(text, target, subst)
  {
    if text == "" {
    } else {
      ReplaceCharAvoids(text[1..], target, subst);
    }
  }

  /** A token never spells a separator, so one segment is read as one. */
  lemma EscapeHasNoSlash(key: string)
    ensures '/' !in Escape(key)
  {
    ReplaceCharAvoids(ReplaceChar(key, '~', "~0"), '/', "~1");
  }

  lemma {:induction false} DecimalParses(n: nat)
    ensures ParseIndex(Decimal(n)) == Some(n)
  {
    var text := Decimal(n);
    assert forall c :: c in text ==> IsDigit(c);
    DecimalValue(n);
    DecimalNoLeadingZero(n);
  }

  lemma {:induction false} DecimalValue(n: nat)
    ensures forall c :: c in Decimal(n) ==> IsDigit(c)
    ensures DigitsValue(Decimal(n)) == n
  {
    if n >= 10 {
      DecimalValue(n / 10);
      assert Decimal(n)[..|Decimal(n)| - 1] == Decimal(n / 10);
    } else {
      assert Decimal(n)[..0] == "";
    }
  }

  lemma {:induction false} DecimalNoLeadingZero(n: nat)
    ensures Decimal(n)[0] == '0' ==> n == 0
    ensures n < 10 ==> |Decimal(n)| == 1
  {
    if n < 10 {
    } else {
      DecimalNoLeadingZero(n / 10);
      assert Decimal(n)[0] == Decimal(n / 10)[0];
    }
  }

  lemma {:induction false} TokenLengthOf(token: string, rest: string)
    requires '/' !in token && PointerShaped(rest)
    ensures TokenLength(token + rest) == |token|
  {
    if token == "" {
      assert token + rest == rest;
    } else {
      assert (token + rest)[1..] == token[1..] + rest;
      TokenLengthOf(token[1..], rest);
    }
  }

  /** One written segment is one evaluation step. */
  lemma ResolveSegment(node: Json, token: string, rest: string)
    requires '/' !in token && PointerShaped(rest)
    ensures Resolve(node, "/" + token + rest) ==
            match Child(node, token) { case Some(child) => Resolve(child, rest) case None => None }
  {
    var pointer := "/" + token + rest;
    assert pointer[1..] == token + rest;
    TokenLengthOf(token, rest);
    assert (token + rest)[..|token|] == token && (token + rest)[|token|..] == rest;
  }

  lemma SegmentsDiffer(a: string, b: string, x: string, y: string)
    requires '/' !in a && '/' !in b && a != b
    requires PointerShaped(x) && PointerShaped(y)
    ensures a + x != b + y
  {
    TokenLengthOf(a, x);
    TokenLengthOf(b, y);
    assert (a + x)[..|a|] == a && (b + y)[..|b|] == b;
  }
}

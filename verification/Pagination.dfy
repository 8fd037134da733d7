/**
 Keyset pagination (ubb-platform/core/pagination.py): one server step, and a
 client that follows `next_cursor`.

 A row is its key, the pair the cursor encodes. Everything else a row carries
 may change between pages without changing what is proved here.
 */
module Pagination {
  import opened Wrappers
  import opened Json
  import Arithmetic

  const MAX_LIMIT: int := 100

  /** `t` in microseconds; `id` is the UUID as the integer databases order it by. */
  datatype Key = Key(t: int, id: nat)

  /** Comes later in the `(-time, -id)` order. */
  predicate Below(a: Key, b: Key) {
    a.t < b.t || (a.t == b.t && a.id < b.id)
  }

  // ----- the cursor -------------------------------------------------------------------

  /** The text formats inside a cursor: base64 over JSON, ISO instants, UUIDs. */
  datatype Codec = Codec(
    wrap: Json -> string,
    unwrap: string -> Option<Json>,
    writeTime: int -> string,
    readTime: string -> Option<int>,
    writeId: nat -> string,
    readId: string -> Option<nat>)

  /** All that is asked of the formats: a cursor, an instant and an id that were written can be read back. */
  ghost predicate Invertible(codec: Codec) {
    && (forall key :: codec.unwrap(EncodeCursor(codec, key)) == Some(Object(Payload(codec, key))))
    && (forall key :: EncodeCursor(codec, key) != "")
    && (forall t :: codec.readTime(codec.writeTime(t)) == Some(t))
    && (forall id: nat :: codec.readId(codec.writeId(id)) == Some(id))
  }

  function Payload(codec: Codec, key: Key): seq<Field> {
    [Field("v", Int(1)), Field("t", String(codec.writeTime(key.t))), Field("id", String(codec.writeId(key.id)))]
  }

  function EncodeCursor(codec: Codec, key: Key): string {
    codec.wrap(Object(Payload(codec, key)))
  }

  /** `Crashed` is an exception that is not a `ValueError`. */
  datatype Decoded = Decoded(key: Key) | ValueError | Crashed

  function DecodeId(codec: Codec, t: int, id: Option<Json>): Decoded {
    match id
    case None => ValueError
    case Some(String(text)) => (match codec.readId(text) case Some(n) => Decoded(Key(t, n)) case None => ValueError)
    case Some(_) => Crashed
  }

  /** The members in the order they are read. */
  function DecodeMembers(codec: Codec, version: Json, t: Option<Json>, id: Option<Json>): Decoded {
    if !EqualsOne(version) then ValueError
    else
      match t
      case None => ValueError
      case Some(String(text)) =>
        (match codec.readTime(text) case Some(instant) => DecodeId(codec, instant, id) case None => ValueError)
      case Some(_) => Crashed
  }

  function DecodeCursor(codec: Codec, cursor: string): Decoded {
    match codec.unwrap(cursor)
    case None => ValueError
    case Some(Object(payload)) => DecodeMembers(codec, GetOrNull(payload, "v"), Get(payload, "t"), Get(payload, "id"))
    case Some(_) => Crashed
  }

  // ----- one page -----------------------------------------------------------------------

  function AtMost(limit: int): (n: nat)
    ensures 1 <= n <= MAX_LIMIT
  {
    var raised := if limit < 1 then 1 else limit;
    if raised > MAX_LIMIT then MAX_LIMIT else raised
  }

  ghost predicate Descending(keys: seq<Key>) {
    forall i, j :: 0 <= i < j < |keys| ==> Below(keys[j], keys[i])
  }

  ghost predicate Lists(keys: seq<Key>, rows: set<Key>) {
    && |keys| == |rows|
    && (forall k :: k in keys <==> k in rows)
    && Descending(keys)
  }

  lemma {:induction false} OrderExists(rows: set<Key>) returns (keys: seq<Key>)
    ensures Lists(keys, rows)
  {
    if rows == {} {
      keys := [];
    } else {
      var k := Greatest(rows);
      var rest := OrderExists(rows - {k});
      keys := [k] + rest;
      assert rows == {k} + (rows - {k});
      forall i, j | 0 <= i < j < |keys|
        ensures Below(keys[j], keys[i])
      {
        assert keys[j] in rest;
      }
    }
  }

  lemma {:induction false} Greatest(rows: set<Key>) returns (k: Key)
    requires rows != {}
    ensures k in rows && forall j :: j in rows ==> j == k || Below(j, k)
  {
    k :| k in rows;
    var rest := rows - {k};
    assert rows == {k} + rest;
    if rest != {} {
      var g := Greatest(rest);
      if Below(k, g) {
        k := g;
      }
    }
  }

  /** Each key directly above the next, a form of `Descending` without quantifiers. */
  predicate Chained(keys: seq<Key>) {
    |keys| < 2 || (Below(keys[|keys| - 1], keys[|keys| - 2]) && Chained(keys[..|keys| - 1]))
  }

  lemma {:induction false} ChainedIsDescending(keys: seq<Key>)
    ensures Chained(keys) <==> Descending(keys)
  {
    if |keys| < 2 {
    } else {
      var front, last := keys[..|keys| - 1], keys[|keys| - 1];
      ChainedIsDescending(front);
      if Chained(keys) {
        forall i | 0 <= i < |front|
          ensures Below(last, keys[i])
        {
          assert i < |front| - 1 ==> Below(front[|front| - 1], front[i]);
        }
      }
    }
  }

  ghost predicate Orders(keys: seq<Key>, rows: set<Key>) {
    Chained(keys) && multiset(keys) == multiset(rows)
  }

  lemma OrderedExists(rows: set<Key>)
    ensures exists keys :: Orders(keys, rows)
  {
    var keys := OrderExists(rows);
    ChainedIsDescending(keys);
    DescendingMultiset(keys, rows);
    assert Orders(keys, rows);
  }

  lemma DescendingMultiset(keys: seq<Key>, rows: set<Key>)
    requires Lists(keys, rows)
    ensures multiset(keys) == multiset(rows)
  {
    forall k
      ensures multiset(keys)[k] == multiset(rows)[k]
    {
      DescendingOccursOnce(keys, k);
    }
  }

  lemma {:induction false} DescendingOccursOnce(keys: seq<Key>, k: Key)
    requires Descending(keys)
    ensures multiset(keys)[k] == if k in keys then 1 else 0
  {
    if keys == [] {
    } else {
      var front, last := keys[..|keys| - 1], keys[|keys| - 1];
      assert keys == front + [last];
      assert last !in front by {
        assert forall i :: 0 <= i < |front| ==> Below(last, front[i]);
      }
      DescendingOccursOnce(front, k);
    }
  }

  /** `order_by("-time", "-id")` over the rows a table holds. */
  ghost function Ordered(rows: set<Key>): (r: seq<Key>)
    ensures Orders(r, rows)
  {
    OrderedExists(rows);
    var keys :| Orders(keys, rows);
    keys
  }

  lemma OrderedLists(rows: set<Key>)
    ensures Lists(Ordered(rows), rows)
  {
    var keys := Ordered(rows);
    ChainedIsDescending(keys);
    assert |multiset(keys)| == |keys| && |multiset(rows)| == |rows|;
    assert forall k :: k in keys <==> k in multiset(keys);
  }

  datatype Page = Page(rows: seq<Key>, next: Option<string>, hasMore: bool)

  datatype Problem = InvalidCursor | ServerError

  /** The rows the cursor filter keeps. */
  function After(rows: set<Key>, key: Key): set<Key> {
    set k | k in rows && Below(k, key)
  }

  function Take(keys: seq<Key>, n: nat): seq<Key> {
    if |keys| <= n then keys else keys[..n]
  }

  /** The fetch of one row too many, and the page it leaves. */
  function PageOf(codec: Codec, ordered: seq<Key>, n: nat): Page {
    var fetched := Take(ordered, n + 1);
    var hasMore := |fetched| > n;
    var kept := Take(fetched, n);
    Page(kept, if hasMore && kept != [] then Some(EncodeCursor(codec, kept[|kept| - 1])) else None, hasMore)
  }

  ghost function Sliced(codec: Codec, rows: set<Key>, limit: int): Page {
    PageOf(codec, Ordered(rows), AtMost(limit))
  }

  /** `paginate`; an absent cursor is `None` or the empty string. */
  ghost function Paginate(codec: Codec, rows: set<Key>, cursor: Option<string>, limit: int): Result<Page, Problem> {
    if cursor.None? || cursor.value == "" then Ok(Sliced(codec, rows, limit))
    else
      match DecodeCursor(codec, cursor.value)
      case Decoded(key) => Ok(Sliced(codec, After(rows, key), limit))
      case ValueError => Err(InvalidCursor)
      case Crashed => Err(ServerError)
  }

  // ----- what a cursor decodes to ---------------------------------------------------------

  lemma CursorRoundTrip(codec: Codec, key: Key)
    requires Invertible(codec)
    ensures DecodeCursor(codec, EncodeCursor(codec, key)) == Decoded(key)
    ensures EncodeCursor(codec, key) != ""
  {
    var payload := Payload(codec, key);
    PayloadMembers(codec, key);
    assert codec.unwrap(EncodeCursor(codec, key)) == Some(Object(payload));
    DecodesMembers(codec, GetOrNull(payload, "v"), Get(payload, "t"), Get(payload, "id"), key);
  }

  lemma PayloadMembers(codec: Codec, key: Key)
    ensures Get(Payload(codec, key), "v") == Some(Int(1))
    ensures Get(Payload(codec, key), "t") == Some(String(codec.writeTime(key.t)))
    ensures Get(Payload(codec, key), "id") == Some(String(codec.writeId(key.id)))
  {
    var payload := Payload(codec, key);
    assert payload[0].key == "v" && payload[1].key == "t" && payload[2].key == "id";
    GetAt(payload, 0);
    GetAt(payload, 1);
    GetAt(payload, 2);
  }

  lemma DecodesMembers(codec: Codec, version: Json, t: Option<Json>, id: Option<Json>, key: Key)
    requires Invertible(codec)
    requires version == Int(1) && t == Some(String(codec.writeTime(key.t))) && id == Some(String(codec.writeId(key.id)))
    ensures DecodeMembers(codec, version, t, id) == Decoded(key)
  {
  }

  predicate TimeRead(codec: Codec, payload: seq<Field>) {
    match Get(payload, "t")
    case Some(String(text)) => codec.readTime(text).Some?
    case _ => false
  }

  /** The members a cursor is read for, where they are present, are text. */
  predicate TextMembers(codec: Codec, payload: seq<Field>) {
    && (Get(payload, "t").Some? ==> Get(payload, "t").value.String?)
    && (TimeRead(codec, payload) && Get(payload, "id").Some? ==> Get(payload, "id").value.String?)
  }

  /**
   A cursor that cannot be used is answered as an invalid cursor unless it
   unwraps to something whose members are not text: then the failure is not a
   `ValueError`, and no problem response is made of it.
   */
  lemma BadCursorIsAProblemUnless(codec: Codec, rows: set<Key>, cursor: string, limit: int)
    requires cursor != "" && !DecodeCursor(codec, cursor).Decoded?
    ensures Paginate(codec, rows, Some(cursor), limit) == Err(InvalidCursor) <==>
            match codec.unwrap(cursor) {
              case None => true
              case Some(Object(payload)) => !EqualsOne(GetOrNull(payload, "v")) || TextMembers(codec, payload)
              case Some(_) => false
            }
  {
  }

  /** A cursor spelling the JSON list `[]` is such a one. */
  lemma ListCursorExample(codec: Codec, rows: set<Key>, cursor: string, limit: int)
    requires cursor != "" && codec.unwrap(cursor) == Some(Array([]))
    ensures Paginate(codec, rows, Some(cursor), limit) == Err(ServerError)
  {
  }

  // ----- formats that can be read back do exist ----------------------------------------------

  function Unary(n: nat): string {
    seq(n, _ => 'i')
  }

  function TimeText(t: int): string {
    if t < 0 then "-" + Unary(-t) else "+" + Unary(t)
  }

  function TimeOf(text: string): Option<int> {
    if text == "" then None else if text[0] == '-' then Some(1 - |text|) else Some(|text| - 1)
  }

  function CommaAt(text: string): (n: nat)
    ensures n <= |text|
  {
    if text == "" || text[0] == ',' then 0 else 1 + CommaAt(text[1..])
  }

  lemma {:induction false} CommaAfter(left: string, right: string)
    requires ',' !in left
    ensures CommaAt(left + ("," + right)) == |left|
  {
    if left == "" {
      assert left + ("," + right) == "," + right;
    } else {
      assert (left + ("," + right))[1..] == left[1..] + ("," + right);
      CommaAfter(left[1..], right);
    }
  }

  function Spell(node: Json): string {
    if node.Object? && |node.fields| == 3 && node.fields[1].value.String? && node.fields[2].value.String?
    then node.fields[1].value.s + ("," + node.fields[2].value.s)
    else ""
  }

  function Unspell(text: string): Option<Json> {
    var n := CommaAt(text);
    if n == |text| then None
    else Some(Object([Field("v", Int(1)), Field("t", String(text[..n])), Field("id", String(text[n + 1..]))]))
  }

  const PLAIN_CODEC := Codec(Spell, Unspell, TimeText, TimeOf, (n: nat) => Unary(n), (text: string) => Some(|text|))

  function Members(left: string, right: string): seq<Field> {
    [Field("v", Int(1)), Field("t", String(left)), Field("id", String(right))]
  }

  lemma SpelledReads(left: string, right: string)
    requires ',' !in left
    ensures Spell(Object(Members(left, right))) == left + ("," + right)
    ensures Unspell(left + ("," + right)) == Some(Object(Members(left, right)))
  {
    var text := left + ("," + right);
    CommaAfter(left, right);
    assert text[..|left|] == left && text[|left| + 1..] == right;
  }

  lemma TimeReads(t: int)
    ensures ',' !in TimeText(t) && TimeOf(TimeText(t)) == Some(t)
  {
  }

  lemma PlainCursor(key: Key)
    ensures Payload(PLAIN_CODEC, key) == Members(TimeText(key.t), Unary(key.id))
    ensures EncodeCursor(PLAIN_CODEC, key) == Spell(Object(Members(TimeText(key.t), Unary(key.id))))
  {
  }

  /** The assumption made of the formats can be met. */
  lemma PlainCodecIsInvertible()
    ensures Invertible(PLAIN_CODEC)
  {
    forall key: Key
      ensures PLAIN_CODEC.unwrap(EncodeCursor(PLAIN_CODEC, key)) == Some(Object(Payload(PLAIN_CODEC, key)))
      ensures EncodeCursor(PLAIN_CODEC, key) != ""
    {
      PlainCursor(key);
      TimeReads(key.t);
      SpelledReads(TimeText(key.t), Unary(key.id));
    }
    forall t
      ensures PLAIN_CODEC.readTime(PLAIN_CODEC.writeTime(t)) == Some(t)
    {
      TimeReads(t);
    }
  }

  // ----- one page, described -----------------------------------------------------------------

  lemma TakeTake(keys: seq<Key>, n: nat)
    ensures Take(Take(keys, n + 1), n) == Take(keys, n)
    ensures |Take(keys, n + 1)| > n <==> |keys| > n
  {
  }

  lemma PageOfIs(codec: Codec, ordered: seq<Key>, n: nat)
    requires n > 0
    ensures PageOf(codec, ordered, n).rows == Take(ordered, n)
    ensures PageOf(codec, ordered, n).hasMore <==> |ordered| > n
    ensures PageOf(codec, ordered, n).next ==
            if |ordered| > n then Some(EncodeCursor(codec, ordered[n - 1])) else None
  {
    TakeTake(ordered, n);
  }

  lemma TakeSplits(ordered: seq<Key>, n: nat)
    requires n > 0 && Descending(ordered)
    ensures Descending(Take(ordered, n))
    ensures forall k :: k in Take(ordered, n) ==> k in ordered
    ensures forall k :: k in ordered ==> k in Take(ordered, n) || (|ordered| > n && Below(k, ordered[n - 1]))
  {
    forall k | k in ordered
      ensures k in Take(ordered, n) || (|ordered| > n && Below(k, ordered[n - 1]))
    {
      var i :| 0 <= i < |ordered| && ordered[i] == k;
      if i < n {
        assert Take(ordered, n)[i] == k;
      }
    }
  }

  /** A page is the top of the rows its cursor admits; the rest lie below its last row. */
  lemma PageSplitsRows(codec: Codec, rows: set<Key>, limit: int)
    ensures var page := Sliced(codec, rows, limit);
            && Descending(page.rows)
            && (forall k :: k in page.rows ==> k in rows)
            && (page.hasMore <==> |rows| > AtMost(limit))
            && (page.next.Some? <==> page.hasMore)
            && (page.next.Some? ==>
                  && page.rows != []
                  && page.next == Some(EncodeCursor(codec, page.rows[|page.rows| - 1])))
            && (forall k :: k in rows ==>
                  k in page.rows || (page.next.Some? && Below(k, page.rows[|page.rows| - 1])))
  {
    var ordered := Ordered(rows);
    OrderedLists(rows);
    PageOfIs(codec, ordered, AtMost(limit));
    TakeSplits(ordered, AtMost(limit));
  }

  // ----- a client over a table that changes ------------------------------------------------------

  /** One request: the table as it stood, the limit asked for, the page answered. */
  datatype Visit = Visit(table: set<Key>, limit: int, page: Page)

  /**
   A client that starts without a cursor and sends back each `next_cursor`.
   Rows come and go between requests as they like, and the limit may change.
   */
  ghost predicate IsWalk(codec: Codec, visits: seq<Visit>) {
    forall k :: 0 <= k < |visits| ==> IsRequest(codec, visits, k)
  }

  /** The k-th request carries the cursor of the page before it, and is answered by `paginate`. */
  ghost predicate IsRequest(codec: Codec, visits: seq<Visit>, k: nat)
    requires k < |visits|
  {
    && (k > 0 ==> visits[k - 1].page.next.Some?)
    && Paginate(codec, visits[k].table, if k == 0 then None else visits[k - 1].page.next, visits[k].limit)
       == Ok(visits[k].page)
  }

  lemma WalkPrefix(codec: Codec, visits: seq<Visit>, k: nat)
    requires IsWalk(codec, visits) && k <= |visits|
    ensures IsWalk(codec, visits[..k])
  {
    forall i | 0 <= i < k
      ensures IsRequest(codec, visits[..k], i)
    {
      assert IsRequest(codec, visits, i);
    }
  }

  lemma WalkExtends(codec: Codec, visits: seq<Visit>, last: Visit)
    requires IsWalk(codec, visits) && IsRequest(codec, visits + [last], |visits|)
    ensures IsWalk(codec, visits + [last])
  {
    forall i | 0 <= i < |visits|
      ensures IsRequest(codec, visits + [last], i)
    {
      assert IsRequest(codec, visits, i);
    }
  }

  function AllRows(visits: seq<Visit>): seq<Key> {
    if visits == [] then [] else AllRows(visits[..|visits| - 1]) + visits[|visits| - 1].page.rows
  }

  ghost predicate PresentThroughout(visits: seq<Visit>, key: Key) {
    forall i :: 0 <= i < |visits| ==> key in visits[i].table
  }

  ghost predicate PresentOnce(visits: seq<Visit>, key: Key) {
    exists i :: 0 <= i < |visits| && key in visits[i].table
  }

  /** Every row present all along that the walk has passed has been returned. */
  ghost predicate Covered(visits: seq<Visit>) {
    var seen := AllRows(visits);
    forall k :: PresentThroughout(visits, k) && seen != [] && !Below(k, seen[|seen| - 1]) ==> k in seen
  }

  /** The cursor of an unfinished walk is the last row returned. */
  ghost predicate CursorIsLast(codec: Codec, visits: seq<Visit>) {
    var seen := AllRows(visits);
    visits != [] && visits[|visits| - 1].page.next.Some? ==>
      seen != [] && visits[|visits| - 1].page.next == Some(EncodeCursor(codec, seen[|seen| - 1]))
  }

  /** The rows the next request's cursor admits. */
  ghost function Admitted(table: set<Key>, seen: seq<Key>): set<Key> {
    if seen == [] then table else After(table, seen[|seen| - 1])
  }

  lemma DescendingConcat(a: seq<Key>, b: seq<Key>)
    requires Descending(a) && Descending(b)
    requires a != [] ==> forall k :: k in b ==> Below(k, a[|a| - 1])
    ensures Descending(a + b)
  {
    var all := a + b;
    forall i, j | 0 <= i < j < |all|
      ensures Below(all[j], all[i])
    {
      if i < |a| <= j {
        assert b[j - |a|] in b;
      }
    }
  }

  /** The last request of a walk is answered from the rows below everything returned before. */
  lemma LastVisit(codec: Codec, visits: seq<Visit>)
    requires Invertible(codec) && IsWalk(codec, visits) && visits != []
    requires CursorIsLast(codec, visits[..|visits| - 1])
    ensures var last := visits[|visits| - 1];
            var seen := AllRows(visits[..|visits| - 1]);
            && last.page == Sliced(codec, Admitted(last.table, seen), last.limit)
            && (visits[..|visits| - 1] != [] ==> seen != [])
  {
    var before := visits[..|visits| - 1];
    var seen := AllRows(before);
    assert IsRequest(codec, visits, |before|);
    if before != [] {
      assert before[|before| - 1] == visits[|before| - 1];
      CursorRoundTrip(codec, seen[|seen| - 1]);
    }
  }

  /** What the walk keeps, page by page. */
  ghost predicate WalkKeeps(codec: Codec, visits: seq<Visit>) {
    && Descending(AllRows(visits))
    && (forall k :: k in AllRows(visits) ==> PresentOnce(visits, k))
    && CursorIsLast(codec, visits)
    && Covered(visits)
    && (visits != [] && visits[|visits| - 1].page.next.None? ==>
          forall k :: PresentThroughout(visits, k) ==> k in AllRows(visits))
  }

  lemma PresenceExtends(before: seq<Visit>, last: Visit, key: Key)
    ensures PresentThroughout(before + [last], key) <==> PresentThroughout(before, key) && key in last.table
    ensures PresentOnce(before + [last], key) <==> PresentOnce(before, key) || key in last.table
  {
    var all := before + [last];
    assert all[|before|] == last;
    assert forall i :: 0 <= i < |before| ==> all[i] == before[i];
  }

  lemma PageKeepsCover(before: seq<Visit>, last: Visit, codec: Codec)
    requires WalkKeeps(codec, before) && (before != [] ==> AllRows(before) != [])
    requires last.page == Sliced(codec, Admitted(last.table, AllRows(before)), last.limit)
    ensures forall k :: PresentThroughout(before + [last], k) ==>
              || k in AllRows(before) + last.page.rows
              || (last.page.next.Some? && Below(k, last.page.rows[|last.page.rows| - 1]))
  {
    var seen := AllRows(before);
    var admitted := Admitted(last.table, seen);
    PageSplitsRows(codec, admitted, last.limit);
    forall k | PresentThroughout(before + [last], k) && k !in seen
      ensures k in admitted
    {
      PresenceExtends(before, last, k);
    }
  }

  /** The row a page with a cursor ends on is the last of all; everything present above it has been returned. */
  lemma VisitCovers(codec: Codec, before: seq<Visit>, last: Visit)
    requires last.page.next.Some? ==>
               && last.page.rows != []
               && last.page.next == Some(EncodeCursor(codec, last.page.rows[|last.page.rows| - 1]))
    requires forall k :: PresentThroughout(before + [last], k) ==>
               || k in AllRows(before) + last.page.rows
               || (last.page.next.Some? && Below(k, last.page.rows[|last.page.rows| - 1]))
    ensures CursorIsLast(codec, before + [last]) && Covered(before + [last])
    ensures last.page.next.None? ==>
              forall k :: PresentThroughout(before + [last], k) ==> k in AllRows(before + [last])
  {
    var visits := before + [last];
    assert visits[..|visits| - 1] == before;
    var seen := AllRows(visits);
    assert seen == AllRows(before) + last.page.rows;
    if last.page.next.Some? {
      assert seen[|seen| - 1] == last.page.rows[|last.page.rows| - 1];
    }
  }

  lemma VisitExtends(codec: Codec, before: seq<Visit>, last: Visit)
    requires WalkKeeps(codec, before)
    requires Descending(AllRows(before) + last.page.rows)
    requires forall k :: k in last.page.rows ==> k in last.table
    requires CursorIsLast(codec, before + [last]) && Covered(before + [last])
    requires last.page.next.None? ==>
               forall k :: PresentThroughout(before + [last], k) ==> k in AllRows(before + [last])
    ensures WalkKeeps(codec, before + [last])
  {
    var visits := before + [last];
    assert visits[..|visits| - 1] == before;
    var seen := AllRows(visits);
    assert seen == AllRows(before) + last.page.rows;
    forall k | k in seen
      ensures PresentOnce(visits, k)
    {
      PresenceExtends(before, last, k);
    }
  }

  lemma VisitKeeps(codec: Codec, before: seq<Visit>, last: Visit)
    requires WalkKeeps(codec, before) && (before != [] ==> AllRows(before) != [])
    requires last.page == Sliced(codec, Admitted(last.table, AllRows(before)), last.limit)
    ensures WalkKeeps(codec, before + [last])
  {
    PageSplitsRows(codec, Admitted(last.table, AllRows(before)), last.limit);
    DescendingConcat(AllRows(before), last.page.rows);
    PageKeepsCover(before, last, codec);
    VisitCovers(codec, before, last);
    VisitExtends(codec, before, last);
  }

  lemma {:induction false} WalkInvariant(codec: Codec, visits: seq<Visit>)
    requires Invertible(codec) && IsWalk(codec, visits)
    ensures WalkKeeps(codec, visits)
    decreases |visits|
  {
    if visits == [] {
    } else {
      var before, last := visits[..|visits| - 1], visits[|visits| - 1];
      assert visits == before + [last];
      WalkPrefix(codec, visits, |visits| - 1);
      WalkInvariant(codec, before);
      LastVisit(codec, visits);
      VisitKeeps(codec, before, last);
    }
  }

  /**
   Whatever is inserted or deleted between pages: no row is returned twice, the
   rows come in strictly descending (time, id) order, each was in a table it
   was read from, and a walk that ends has returned every row that was there
   all along.
   */
  lemma ChangingTableWalk(codec: Codec, visits: seq<Visit>)
    requires Invertible(codec) && IsWalk(codec, visits)
    ensures Descending(AllRows(visits)) && Distinct(AllRows(visits))
    ensures forall k :: k in AllRows(visits) ==> PresentOnce(visits, k)
    ensures visits != [] && !visits[|visits| - 1].page.hasMore ==>
              forall k :: PresentThroughout(visits, k) ==> k in AllRows(visits)
  {
    WalkInvariant(codec, visits);
    if visits != [] {
      var before, last := visits[..|visits| - 1], visits[|visits| - 1];
      WalkPrefix(codec, visits, |visits| - 1);
      WalkInvariant(codec, before);
      LastVisit(codec, visits);
      PageSplitsRows(codec, Admitted(last.table, AllRows(before)), last.limit);
    }
    DescendingIsDistinct(AllRows(visits));
  }

  lemma DescendingIsDistinct(keys: seq<Key>)
    requires Descending(keys)
    ensures Distinct(keys)
  {
    forall i, j | 0 <= i < j < |keys|
      ensures keys[i] != keys[j]
    {
      assert Below(keys[j], keys[i]);
    }
  }

  // ----- a client over a table that stands still -----------------------------------------------------

  lemma DescendingIsUnique(a: seq<Key>, b: seq<Key>)
    requires Descending(a) && Descending(b) && forall k :: k in a <==> k in b
    ensures a == b
  {
    var x, y := if a == [] then Key(0, 0) else a[0], if b == [] then Key(0, 0) else b[0];
    assert (a != [] ==> x in a) && (b != [] ==> y in b);
    if a != [] && b != [] {
      assert a[0] in b && b[0] in a;
      assert a[0] == b[0];
      forall k | k in a[1..]
        ensures k in b[1..]
      {
        assert k in a && k != a[0];
        var i :| 0 <= i < |b| && b[i] == k;
        assert b[1..][i - 1] == k;
      }
      forall k | k in b[1..]
        ensures k in a[1..]
      {
        assert k in b && k != b[0];
        var i :| 0 <= i < |a| && a[i] == k;
        assert a[1..][i - 1] == k;
      }
      DescendingIsUnique(a[1..], b[1..]);
      assert a == [a[0]] + a[1..] && b == [b[0]] + b[1..];
    }
  }

  /** The cursor filter over a fixed table leaves exactly the rest of the order. */
  lemma AfterIsTheRest(rows: set<Key>, read: nat)
    requires 0 < read <= |rows| && |Ordered(rows)| == |rows|
    ensures Ordered(After(rows, Ordered(rows)[read - 1])) == Ordered(rows)[read..]
  {
    OrderedLists(rows);
    OrderedLists(After(rows, Ordered(rows)[read - 1]));
    var ordered := Ordered(rows);
    var rest := ordered[read..];
    var after := After(rows, ordered[read - 1]);
    forall k | k in rest
      ensures k in after
    {
      var i :| 0 <= i < |rest| && rest[i] == k;
      assert ordered[read + i] == k;
    }
    forall k | k in after
      ensures k in rest
    {
      var i :| 0 <= i < |ordered| && ordered[i] == k;
      assert rest[i - read] == k;
    }
    DescendingIsUnique(Ordered(after), rest);
  }

  /** Every request found the same rows and asked for as many of them. */
  ghost predicate Still(visits: seq<Visit>, rows: set<Key>, limit: int) {
    forall i :: 0 <= i < |visits| ==> visits[i].table == rows && visits[i].limit == limit
  }

  /** The rows that many full pages hold. */
  function Full(count: nat, n: nat): nat {
    if count == 0 then 0 else Full(count - 1, n) + n
  }

  lemma FullNext(count: nat, next: nat, n: nat)
    requires next == count + 1
    ensures Full(next, n) == Full(count, n) + n
  {
  }

  lemma {:induction false} FullIs(count: nat, n: nat)
    ensures Full(count, n) == count * n
  {
    if count == 0 {
    } else {
      FullIs(count - 1, n);
      assert (count - 1) * n + n == count * n;
    }
  }

  ghost predicate ReadSoFar(rows: set<Key>, visits: seq<Visit>, read: nat)
    requires visits != []
  {
    && AllRows(visits) == Take(Ordered(rows), read)
    && (visits[|visits| - 1].page.hasMore <==> read < |rows|)
  }

  lemma {:induction false} StillWalk(codec: Codec, rows: set<Key>, limit: int, visits: seq<Visit>, n: nat)
    returns (read: nat)
    requires Invertible(codec) && IsWalk(codec, visits) && Still(visits, rows, limit) && visits != []
    requires n == AtMost(limit)
    ensures read == Full(|visits|, n) && ReadSoFar(rows, visits, read)
    decreases |visits|
  {
    var before := visits[..|visits| - 1];
    if before == [] {
      StillStep(codec, rows, limit, visits, 0);
      read := n;
      FullNext(0, 1, n);
    } else {
      WalkPrefix(codec, visits, |visits| - 1);
      assert IsRequest(codec, visits, |before|) && before[|before| - 1] == visits[|before| - 1];
      var earlier := StillWalk(codec, rows, limit, before, n);
      NextMeansMore(codec, before);
      StillStep(codec, rows, limit, visits, earlier);
      read := earlier + n;
      FullNext(|before|, |visits|, n);
    }
  }

  lemma StillPage(codec: Codec, rows: set<Key>, limit: int, visits: seq<Visit>, read: nat)
    requires Invertible(codec) && IsWalk(codec, visits) && Still(visits, rows, limit) && visits != []
    requires read <= |Ordered(rows)| && AllRows(visits[..|visits| - 1]) == Ordered(rows)[..read]
    ensures visits[|visits| - 1].page == Sliced(codec, Admitted(rows, Ordered(rows)[..read]), limit)
    ensures AllRows(visits) == Ordered(rows)[..read] + visits[|visits| - 1].page.rows
  {
    var before := visits[..|visits| - 1];
    assert visits[|visits| - 1].table == rows && visits[|visits| - 1].limit == limit;
    WalkPrefix(codec, visits, |visits| - 1);
    WalkInvariant(codec, before);
    LastVisit(codec, visits);
  }

  lemma StillStep(codec: Codec, rows: set<Key>, limit: int, visits: seq<Visit>, read: nat)
    requires Invertible(codec) && IsWalk(codec, visits) && Still(visits, rows, limit) && visits != []
    requires var before := visits[..|visits| - 1];
             if before == [] then read == 0 else ReadSoFar(rows, before, read) && read < |rows|
    ensures ReadSoFar(rows, visits, read + AtMost(limit))
  {
    OrderedLists(rows);
    assert AllRows(visits[..|visits| - 1]) == Ordered(rows)[..read];
    StillPage(codec, rows, limit, visits, read);
    PageFrom(codec, rows, limit, AtMost(limit), read);
  }

  lemma NextMeansMore(codec: Codec, visits: seq<Visit>)
    requires Invertible(codec) && IsWalk(codec, visits) && visits != []
    ensures visits[|visits| - 1].page.next.Some? <==> visits[|visits| - 1].page.hasMore
  {
    var before, last := visits[..|visits| - 1], visits[|visits| - 1];
    WalkPrefix(codec, visits, |visits| - 1);
    WalkInvariant(codec, before);
    LastVisit(codec, visits);
    PageSplitsRows(codec, Admitted(last.table, AllRows(before)), last.limit);
  }

  /** The page a still table answers once `read` rows have been returned. */
  lemma PageFrom(codec: Codec, rows: set<Key>, limit: int, n: nat, read: nat)
    requires n == AtMost(limit) && read <= |rows| && |Ordered(rows)| == |rows|
    ensures var ordered := Ordered(rows);
            var page := Sliced(codec, Admitted(rows, ordered[..read]), limit);
            && ordered[..read] + page.rows == Take(ordered, read + n)
            && (page.hasMore <==> read + n < |rows|)
  {
    var ordered := Ordered(rows);
    if read > 0 {
      AfterIsTheRest(rows, read);
    } else {
      assert ordered[..0] == [] && ordered[0..] == ordered;
    }
    PageOfIs(codec, ordered[read..], n);
    TakeOn(ordered, read, n);
  }

  lemma TakeOn(ordered: seq<Key>, read: nat, n: nat)
    requires read <= |ordered|
    ensures ordered[..read] + Take(ordered[read..], n) == Take(ordered, read + n)
  {
  }

  /**
   Over a table that stands still, a walk that has ended has read the whole
   table in order, in max(1, ceil(rows / n)) pages, and every page before the
   last said there was more.
   */
  lemma WholeTableWalk(codec: Codec, rows: set<Key>, limit: int, visits: seq<Visit>, n: nat)
    requires n == AtMost(limit) && Invertible(codec) && IsWalk(codec, visits) && Still(visits, rows, limit)
    requires visits != [] && !visits[|visits| - 1].page.hasMore
    ensures AllRows(visits) == Ordered(rows)
    ensures |visits| == PagesFor(|rows|, n)
    ensures forall i :: 0 <= i < |visits| - 1 ==> visits[i].page.hasMore
  {
    EveryEarlierPageHasMore(codec, visits);
    EndedWalkCounts(codec, rows, limit, visits, n);
    PageCount(|visits|, |rows|, n);
  }

  lemma EndedWalkCounts(codec: Codec, rows: set<Key>, limit: int, visits: seq<Visit>, n: nat)
    requires n == AtMost(limit) && Invertible(codec) && IsWalk(codec, visits) && Still(visits, rows, limit)
    requires visits != [] && !visits[|visits| - 1].page.hasMore
    ensures AllRows(visits) == Ordered(rows)
    ensures |rows| <= Full(|visits|, n)
    ensures |visits| > 1 ==> Full(|visits| - 1, n) < |rows|
  {
    OrderedLists(rows);
    var read := StillWalk(codec, rows, limit, visits, n);
    var before := visits[..|visits| - 1];
    if before != [] {
      WalkPrefix(codec, visits, |visits| - 1);
      assert IsRequest(codec, visits, |before|) && before[|before| - 1] == visits[|before| - 1];
      var earlier := StillWalk(codec, rows, limit, before, n);
      NextMeansMore(codec, before);
    }
  }

  /** The pages a table fills, an empty one included: max(1, ceil(rows / n)). */
  function PagesFor(rows: nat, n: nat): int
    requires n > 0
  {
    if rows == 0 then 1 else (rows + n - 1) / n
  }

  lemma PageCount(count: nat, left: nat, n: nat)
    requires n > 0 && count > 0 && left <= Full(count, n) && (count > 1 ==> Full(count - 1, n) < left)
    ensures count == PagesFor(left, n)
  {
    FullIs(count, n);
    FullIs(count - 1, n);
    if left > 0 {
      assert count * n == (count - 1) * n + n;
      assert (count - 1) * n < left by {
        if count == 1 {
          assert 0 * n == 0;
        }
      }
      Arithmetic.DivUnique(left + n - 1, n, count, left - 1 - (count - 1) * n);
    } else if count > 1 {
      Arithmetic.MulAtLeast(count - 1, n);
    }
  }

  lemma EarlierPagesHaveMore(codec: Codec, visits: seq<Visit>, i: nat)
    requires Invertible(codec) && IsWalk(codec, visits) && i < |visits| - 1
    ensures visits[i].page.hasMore
  {
    assert IsRequest(codec, visits, i + 1);
    WalkPrefix(codec, visits, i + 1);
    NextMeansMore(codec, visits[..i + 1]);
  }

  lemma EveryEarlierPageHasMore(codec: Codec, visits: seq<Visit>)
    requires Invertible(codec) && IsWalk(codec, visits)
    ensures forall i :: 0 <= i < |visits| - 1 ==> visits[i].page.hasMore
  {
    forall i | 0 <= i < |visits| - 1
      ensures visits[i].page.hasMore
    {
      EarlierPagesHaveMore(codec, visits, i);
    }
  }

  /** Following the cursors of a table that stands still does end. */
  lemma FollowingEnds(codec: Codec, rows: set<Key>, limit: int) returns (visits: seq<Visit>)
    requires Invertible(codec)
    ensures IsWalk(codec, visits) && Still(visits, rows, limit)
    ensures visits != [] && !visits[|visits| - 1].page.hasMore
  {
    visits := [Visit(rows, limit, Sliced(codec, rows, limit))];
    while visits[|visits| - 1].page.hasMore
      invariant visits != [] && IsWalk(codec, visits) && Still(visits, rows, limit)
      decreases |rows| - |visits|
    {
      var read := StillWalk(codec, rows, limit, visits, AtMost(limit));
      FullIsEnough(|visits|, AtMost(limit));
      visits := NextVisit(codec, rows, limit, visits);
    }
  }

  lemma {:induction false} FullIsEnough(count: nat, n: nat)
    requires n > 0
    ensures count <= Full(count, n)
  {
    if count == 0 {
    } else {
      FullIsEnough(count - 1, n);
    }
  }

  lemma NextVisit(codec: Codec, rows: set<Key>, limit: int, visits: seq<Visit>) returns (longer: seq<Visit>)
    requires Invertible(codec) && IsWalk(codec, visits) && Still(visits, rows, limit)
    requires visits != [] && visits[|visits| - 1].page.hasMore
    ensures IsWalk(codec, longer) && Still(longer, rows, limit) && |longer| == |visits| + 1
  {
    NextMeansMore(codec, visits);
    WalkInvariant(codec, visits);
    var cursor := visits[|visits| - 1].page.next;
    CursorRoundTrip(codec, AllRows(visits)[|AllRows(visits)| - 1]);
    var page := Paginate(codec, rows, cursor, limit).value;
    longer := visits + [Visit(rows, limit, page)];
    assert longer[|visits| - 1] == visits[|visits| - 1];
    WalkExtends(codec, visits, Visit(rows, limit, page));
  }
}

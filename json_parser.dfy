/**
 * The JSON evidence parser: a depth-first walk of a parsed JSON value that
 * emits each object key before the contents of its value and every scalar
 * as its string form, followed by a join of the pieces with single spaces.
 * Decoding the bytes and parsing them into a JSON value are not modelled:
 * the walk starts from the parsed value.
 */
module JsonParser {

  /** A parsed JSON value; a number carries the text str() gives it, and an object keeps its key order. */
  datatype Json =
    | JNull
    | JBool(b: bool)
    | JNumber(text: string)
    | JString(s: string)
    | JArray(items: seq<Json>)
    | JObject(members: seq<(string, Json)>)

  predicate IsScalar(j: Json) {
    !j.JArray? && !j.JObject?
  }

  /** str() of a scalar. */
  function Str(j: Json): string
    requires IsScalar(j)
  {
    match j
    case JNull => "None"
    case JBool(b) => if b then "True" else "False"
    case JNumber(t) => t
    case JString(s) => s
  }

  /** flatten: an object gives its members' pieces, an array its items', a scalar its string. */
  function Flatten(j: Json): seq<string>
    decreases j, 1
  {
    match j
    case JObject(ms) => FlattenMembers(ms)
    case JArray(items) => FlattenItems(items)
    case _ => [Str(j)]
  }

  /** Each key, then the pieces of its value, member after member. */
  function FlattenMembers(ms: seq<(string, Json)>): seq<string>
    decreases ms, 0
  {
    if ms == [] then []
    else
      var m := ms[0];
      assert m in ms && m.1 < m;
      [m.0] + Flatten(m.1) + FlattenMembers(ms[1..])
  }

  /** The pieces of each item, item after item. */
  function FlattenItems(items: seq<Json>): seq<string>
    decreases items, 0
  {
    if items == [] then [] else Flatten(items[0]) + FlattenItems(items[1..])
  }

  /** The pieces of consecutive members are the pieces of the first ones, then of the rest. */
  lemma {:induction false} FlattenMembersAppend(a: seq<(string, Json)>, b: seq<(string, Json)>)
    ensures FlattenMembers(a + b) == FlattenMembers(a) + FlattenMembers(b)
    decreases |a|
  {
    if a == [] {
      assert a + b == b;
    } else {
      assert (a + b)[1..] == a[1..] + b;
      FlattenMembersAppend(a[1..], b);
    }
  }

  /** The pieces of consecutive items are the pieces of the first ones, then of the rest. */
  lemma {:induction false} FlattenItemsAppend(a: seq<Json>, b: seq<Json>)
    ensures FlattenItems(a + b) == FlattenItems(a) + FlattenItems(b)
    decreases |a|
  {
    if a == [] {
      assert a + b == b;
    } else {
      assert (a + b)[1..] == a[1..] + b;
      FlattenItemsAppend(a[1..], b);
    }
  }

  /**
   * An object's pieces, in key order: appending a member appends its key
   * and then its value's pieces.
   */
  lemma FlattenObjectSnoc(ms: seq<(string, Json)>, k: string, v: Json)
    ensures Flatten(JObject(ms + [(k, v)])) == Flatten(JObject(ms)) + [k] + Flatten(v)
  {
    FlattenMembersAppend(ms, [(k, v)]);
    assert FlattenMembers([(k, v)]) == [k] + Flatten(v) + FlattenMembers([]);
  }

  /** An array's pieces, in order: appending an item appends that item's pieces. */
  lemma FlattenArraySnoc(items: seq<Json>, x: Json)
    ensures Flatten(JArray(items + [x])) == Flatten(JArray(items)) + Flatten(x)
  {
    FlattenItemsAppend(items, [x]);
    assert FlattenItems([x]) == Flatten(x) + FlattenItems([]);
  }

  /** An empty object or array inside an array contributes nothing. */
  lemma EmptyContainerItemVanishes(a: seq<Json>, b: seq<Json>, e: Json)
    requires e == JArray([]) || e == JObject([])
    ensures Flatten(JArray(a + [e] + b)) == Flatten(JArray(a + b))
  {
    FlattenItemsAppend(a + [e], b);
    FlattenItemsAppend(a, [e]);
    FlattenItemsAppend(a, b);
    assert FlattenItems([e]) == Flatten(e) + FlattenItems([]);
  }

  /** Number of object keys in `j`. */
  function Keys(j: Json): nat
    decreases j, 1
  {
    match j
    case JObject(ms) => MemberKeys(ms)
    case JArray(items) => ItemKeys(items)
    case _ => 0
  }

  function MemberKeys(ms: seq<(string, Json)>): nat
    decreases ms, 0
  {
    if ms == [] then 0
    else
      var m := ms[0];
      assert m in ms && m.1 < m;
      1 + Keys(m.1) + MemberKeys(ms[1..])
  }

  function ItemKeys(items: seq<Json>): nat
    decreases items, 0
  {
    if items == [] then 0 else Keys(items[0]) + ItemKeys(items[1..])
  }

  /** Number of scalar leaves in `j`. */
  function Leaves(j: Json): nat
    decreases j, 1
  {
    match j
    case JObject(ms) => MemberLeaves(ms)
    case JArray(items) => ItemLeaves(items)
    case _ => 1
  }

  function MemberLeaves(ms: seq<(string, Json)>): nat
    decreases ms, 0
  {
    if ms == [] then 0
    else
      var m := ms[0];
      assert m in ms && m.1 < m;
      Leaves(m.1) + MemberLeaves(ms[1..])
  }

  function ItemLeaves(items: seq<Json>): nat
    decreases items, 0
  {
    if items == [] then 0 else Leaves(items[0]) + ItemLeaves(items[1..])
  }

  /** One piece per object key and one per scalar leaf. */
  lemma {:induction false} FlattenLength(j: Json)
    ensures |Flatten(j)| == Keys(j) + Leaves(j)
    decreases j, 1
  {
    match j
    case JObject(ms) => FlattenMembersLength(ms);
    case JArray(items) => FlattenItemsLength(items);
    case _ =>
  }

  lemma {:induction false} FlattenMembersLength(ms: seq<(string, Json)>)
    ensures |FlattenMembers(ms)| == MemberKeys(ms) + MemberLeaves(ms)
    decreases ms, 0
  {
    if ms != [] {
      var m := ms[0];
      assert m in ms && m.1 < m;
      FlattenLength(m.1);
      FlattenMembersLength(ms[1..]);
    }
  }

  lemma {:induction false} FlattenItemsLength(items: seq<Json>)
    ensures |FlattenItems(items)| == ItemKeys(items) + ItemLeaves(items)
    decreases items, 0
  {
    if items != [] {
      FlattenLength(items[0]);
      FlattenItemsLength(items[1..]);
    }
  }

  /** `" ".join(ws)` */
  function Join(ws: seq<string>): string {
    if ws == [] then ""
    else if |ws| == 1 then ws[0]
    else ws[0] + " " + Join(ws[1..])
  }

  /** Joining two non-empty lists puts one space between their joins. */
  lemma {:induction false} JoinAppend(a: seq<string>, b: seq<string>)
    requires a != [] && b != []
    ensures Join(a + b) == Join(a) + " " + Join(b)
    decreases |a|
  {
    if |a| > 1 {
      assert (a + b)[1..] == a[1..] + b;
      JoinAppend(a[1..], b);
      var x, y, z := a[0], Join(a[1..]), Join(b);
      assert x + " " + (y + " " + z) == (x + " " + y) + " " + z;
    } else {
      assert (a + b)[1..] == b;
    }
  }

  /** Python's `s.split(" ")`: the pieces between single spaces. */
  function SplitOnSpace(s: string): (ws: seq<string>)
    ensures ws != []
  {
    if ' ' !in s then [s]
    else
      var i := IndexOfSpace(s);
      [s[..i]] + SplitOnSpace(s[i + 1..])
  }

  /** Position of the first space of `s`. */
  function IndexOfSpace(s: string): (i: nat)
    requires ' ' in s
    ensures i < |s| && s[i] == ' ' && ' ' !in s[..i]
  {
    if s[0] == ' ' then 0
    else
      var i := 1 + IndexOfSpace(s[1..]);
      assert s[..i] == [s[0]] + s[1..][..i - 1];
      i
  }

  /** Splitting the joined text at its spaces gives back pieces that hold no space. */
  lemma {:induction false} JoinSplitRoundTrip(ws: seq<string>)
    requires ws != []
    requires forall k | 0 <= k < |ws| :: ' ' !in ws[k]
    ensures SplitOnSpace(Join(ws)) == ws
  {
    if |ws| > 1 {
      var s := Join(ws);
      var w := ws[0];
      assert s == w + " " + Join(ws[1..]);
      assert ' ' in s by { assert s[|w|] == ' '; }
      var i := IndexOfSpace(s);
      assert i == |w|;
      assert s[..i] == w;
      assert s[i + 1..] == Join(ws[1..]);
      JoinSplitRoundTrip(ws[1..]);
    }
  }

  /** parse_json on an already parsed value: the flattened pieces joined by single spaces. */
  function ParseJson(j: Json): string {
    Join(Flatten(j))
  }

  /**
   * Two arrays whose pieces are not empty: the text of their concatenation
   * is their two texts with one space between.
   */
  lemma ParseJsonArrayAppend(a: seq<Json>, b: seq<Json>)
    requires FlattenItems(a) != [] && FlattenItems(b) != []
    ensures ParseJson(JArray(a + b)) == ParseJson(JArray(a)) + " " + ParseJson(JArray(b))
  {
    FlattenItemsAppend(a, b);
    JoinAppend(FlattenItems(a), FlattenItems(b));
  }

  /**
   * Adding a member to an object appends, after a space unless nothing came
   * before, the member's key followed by its value's text.
   */
  lemma ParseJsonObjectSnoc(ms: seq<(string, Json)>, k: string, v: Json)
    ensures ParseJson(JObject(ms + [(k, v)]))
         == (if FlattenMembers(ms) == [] then "" else ParseJson(JObject(ms)) + " ")
            + Join([k] + Flatten(v))
  {
    var front := Flatten(JObject(ms));
    var tail := [k] + Flatten(v);
    var whole := Flatten(JObject(ms + [(k, v)]));
    assert whole == front + tail by {
      FlattenObjectSnoc(ms, k, v);
      assert front + [k] + Flatten(v) == front + tail;
    }
    assert FlattenMembers(ms) == front;
    if front != [] {
      JoinAppend(front, tail);
    } else {
      assert whole == tail;
    }
  }

  /** An empty object and an empty array give the empty text. */
  lemma ParseJsonEmpty()
    ensures ParseJson(JObject([])) == ""
    ensures ParseJson(JArray([])) == ""
  {
  }

  /** A scalar document is its string form alone. */
  lemma ParseJsonScalar(j: Json)
    requires IsScalar(j)
    ensures ParseJson(j) == Str(j)
  {
  }
}

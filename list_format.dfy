/**
 * The text `listToString` produces for a list: every value written as
 * `%d->` in list order, then the terminator `NULL`. `Render` is the
 * specification the imperative serialiser is proved against; `ParseRender`
 * reads the text back, and the round-trip lemma shows that distinct lists
 * never render to the same text.
 */
module ListFormat {
  import opened Decimal

  datatype Option<T> = None | Some(value: T)

  /** The text written for one node: `%d` followed by "->". It ends in the
      arrow, and what precedes the arrow reads back as the node's value. */
  function Item(v: int): (t: string)
    ensures |t| >= 3 && t[|t| - 2..] == "->"
    ensures IsDecimalToken(t[..|t| - 2]) && DecimalValue(t[..|t| - 2]) == v
  {
    var d := IntToDecimal(v);
    IntToDecimalRoundTrip(v);
    assert (d + "->")[..|d|] == d;
    d + "->"
  }

  /** The node texts of `s`, in list order: empty exactly for the empty
      list, and at least three chars per node. */
  function RenderItems(s: seq<int>): (t: string)
    ensures |t| >= 3 * |s|
    ensures t == "" <==> s == []
  {
    if s == [] then "" else Item(s[0]) + RenderItems(s[1..])
  }

  /** The whole text for a list holding `s`: the node texts, then the
      terminator "NULL". */
  function Render(s: seq<int>): (r: string)
    ensures |r| >= 3 * |s| + 4
    ensures r[|r| - 4..] == "NULL"
  {
    RenderItems(s) + "NULL"
  }

  /** Appending one value to the list appends exactly its node text. */
  lemma {:induction false} RenderItemsAppend(s: seq<int>, v: int)
    ensures RenderItems(s + [v]) == RenderItems(s) + Item(v)
  {
    if s == [] {
      assert s + [v] == [v];
    } else {
      assert (s + [v])[1..] == s[1..] + [v];
      RenderItemsAppend(s[1..], v);
    }
  }

  /** The node texts of the first k+1 values extend those of the first k by one node. */
  lemma RenderItemsPrefix(s: seq<int>, k: nat)
    requires k < |s|
    ensures RenderItems(s[..k + 1]) == RenderItems(s[..k]) + Item(s[k])
  {
    assert s[..k + 1] == s[..k] + [s[k]];
    RenderItemsAppend(s[..k], s[k]);
  }

  /** The rendering of a one-step-longer list, read from the front. */
  lemma RenderCons(s: seq<int>)
    requires s != []
    ensures Render(s) == Item(s[0]) + Render(s[1..])
  {
  }

  /** No node text holds a NUL. */
  lemma ItemHasNoNul(v: int)
    ensures '\0' !in Item(v)
  {
    var d := IntToDecimal(v);
    forall i | 0 <= i < |d| ensures d[i] != '\0' {
      assert i == 0 || d[i] == d[1..][i - 1];
    }
    assert Item(v) == d + "->";
  }

  /** The node texts of a list hold no NUL. */
  lemma {:induction false} RenderItemsHasNoNul(s: seq<int>)
    ensures '\0' !in RenderItems(s)
  {
    if s != [] {
      ItemHasNoNul(s[0]);
      RenderItemsHasNoNul(s[1..]);
    }
  }

  /** The rendering holds no NUL, so as a C string its length is |Render(s)|. */
  lemma RenderHasNoNul(s: seq<int>)
    ensures '\0' !in Render(s)
  {
    RenderItemsHasNoNul(s);
  }

  /** The position of the first `c` in `s`, or |s| when there is none. */
  function FirstIndex(s: string, c: char): (k: nat)
    ensures k <= |s|
    ensures forall i :: 0 <= i < k ==> s[i] != c
    ensures k < |s| ==> s[k] == c
  {
    if s == [] then 0 else if s[0] == c then 0 else 1 + FirstIndex(s[1..], c)
  }

  /** Reads a rendering back into the values it lists; None for text `Render` never produces. */
  function ParseRender(s: string): Option<seq<int>>
    decreases |s|
  {
    var k := FirstIndex(s, '>');
    if k == |s| then
      if s == "NULL" then Some([]) else None
    else if k < 1 || s[k - 1] != '-' || !IsDecimalToken(s[..k - 1]) then None
    else
      match ParseRender(s[k + 1..])
      case None => None
      case Some(rest) => Some([DecimalValue(s[..k - 1])] + rest)
  }

  /** The first '>' of a rendering that starts with a node is the one closing that node's arrow. */
  lemma ArrowAfterToken(d: string, tail: string)
    requires IsDecimalToken(d)
    ensures FirstIndex(d + "->" + tail, '>') == |d| + 1
  {
    var s := d + "->" + tail;
    assert s[|d| + 1] == '>';
  }

  /** Parsing a text that starts with one node's text reads that node's value
      and then parses the rest. */
  lemma ParseNode(v: int, tail: string)
    ensures ParseRender(Item(v) + tail) ==
      match ParseRender(tail)
      case None => None
      case Some(rest) => Some([v] + rest)
  {
    var d := IntToDecimal(v);
    var text := Item(v) + tail;
    assert text == d + "->" + tail;
    IntToDecimalRoundTrip(v);
    ArrowAfterToken(d, tail);
    assert text[..|d|] == d;
    assert text[|d| + 2..] == tail;
  }

  /** Parsing a rendering gives back exactly the listed values. */
  lemma {:induction false} RenderRoundTrip(s: seq<int>)
    ensures ParseRender(Render(s)) == Some(s)
  {
    if s == [] {
      assert Render(s) == "NULL";
    } else {
      var tail := Render(s[1..]);
      calc {
        ParseRender(Render(s));
        { RenderCons(s); }
        ParseRender(Item(s[0]) + tail);
        { ParseNode(s[0], tail); RenderRoundTrip(s[1..]); }
        Some([s[0]] + s[1..]);
        { assert [s[0]] + s[1..] == s; }
        Some(s);
      }
    }
  }

  /** Distinct lists render to distinct text. */
  lemma RenderInjective(s: seq<int>, t: seq<int>)
    ensures Render(s) == Render(t) ==> s == t
  {
    RenderRoundTrip(s);
    RenderRoundTrip(t);
  }
}

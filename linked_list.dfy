/**
 * The singly-linked integer list of list.c. A `List` holds the first node of
 * a chain of `Node`s linked through `next`; every operation walks a cursor
 * along the chain and relinks `head` or `next` in place.
 *
 * The abstract view is the ghost sequence `Contents` (the values from the
 * head onwards). `Nodes` names the node objects in chain order, and `Repr`
 * holds the list object and every node of its chain. Positions are 1-based,
 * as in the C interface, and failures are signalled with the C sentinel -1;
 * every contract states the failure condition itself, since -1 is also a
 * value the list may hold.
 */
module LinkedList {
  import opened ListFormat

  /** The value the C functions return to signal failure. */
  const Failure: int := -1

  /** `s` with `v` inserted so that it sits at 1-based position `index`;
      an index outside 1..|s|+1 leaves `s` as it is. */
  function InsertAt(s: seq<int>, v: int, index: int): (r: seq<int>)
    ensures 1 <= index <= |s| + 1 ==> |r| == |s| + 1 && r[index - 1] == v
    ensures index == 1 ==> r == [v] + s
    ensures index == |s| + 1 ==> r == s + [v]
    ensures index < 1 || index > |s| + 1 ==> r == s
  {
    if 1 <= index <= |s| + 1 then s[..index - 1] + [v] + s[index - 1..] else s
  }

  /** `s` without the value at 1-based position `index`; an index outside
      1..|s| leaves `s` as it is. */
  function RemoveAt(s: seq<int>, index: int): (r: seq<int>)
    ensures 1 <= index <= |s| ==> |r| == |s| - 1
    ensures index == 1 && s != [] ==> r == s[1..]
    ensures index == |s| && s != [] ==> r == s[..|s| - 1]
    ensures index < 1 || index > |s| ==> r == s
  {
    if 1 <= index <= |s| then s[..index - 1] + s[index..] else s
  }

  /** Removing at the position just inserted at undoes the insertion. */
  lemma RemoveAtInsertAt(s: seq<int>, v: int, index: int)
    requires 1 <= index <= |s| + 1
    ensures RemoveAt(InsertAt(s, v, index), index) == s
  {
  }

  /** Re-inserting a removed value at its old position restores the list. */
  lemma InsertAtRemoveAt(s: seq<int>, index: int)
    requires 1 <= index <= |s|
    ensures InsertAt(RemoveAt(s, index), s[index - 1], index) == s
  {
  }

  /** realloc: a buffer of `size` chars that starts with the old buffer's
      contents, as far as both reach. */
  method Realloc(buf: array<char>, size: nat) returns (grown: array<char>)
    ensures fresh(grown) && grown.Length == size
    ensures forall i :: 0 <= i < buf.Length && i < size ==> grown[i] == buf[i]
  {
    grown := new char[size];
    forall i | 0 <= i < buf.Length && i < size {
      grown[i] := buf[i];
    }
  }

  /** memcpy: `text` is copied into `buf` from position `at` on. */
  method CopyInto(buf: array<char>, at: nat, text: string)
    requires at + |text| <= buf.Length
    modifies buf
    ensures buf[..at] == old(buf[..at])
    ensures buf[at..at + |text|] == text
    ensures buf[at + |text|..] == old(buf[at + |text|..])
  {
    forall i | 0 <= i < |text| {
      buf[at + i] := text[i];
    }
  }

  /** `c` doubled `k` times, that is c * 2^k: never smaller than `c`, and at
      least twice `c` after one doubling or more. */
  function Doubled(c: nat, k: nat): (r: nat)
    ensures r >= c
    ensures k > 0 ==> r >= 2 * c
  {
    if k == 0 then c else 2 * Doubled(c, k - 1)
  }

  /** Doubling e times and then k times is doubling e + k times. */
  lemma {:induction false} DoubledAdd(c: nat, e: nat, k: nat)
    ensures Doubled(Doubled(c, e), k) == Doubled(c, e + k)
  {
    if k > 0 {
      DoubledAdd(c, e, k - 1);
    }
  }

  /** One node's step of listToString: double the capacity while `text` and
      a terminating NUL do not fit after the `used` chars with a char to
      spare, then copy `text` in and terminate it. */
  method AppendGrowing(buf: array<char>, used: nat, capacity: nat, text: string)
    returns (grown: array<char>, used': nat, capacity': nat, ghost doublings: nat)
    requires capacity == buf.Length && used < capacity
    modifies buf
    ensures grown == buf || fresh(grown)
    ensures capacity' == grown.Length && used' == used + |text| && used' + 1 < capacity'
    ensures capacity' >= capacity
    ensures used + |text| + 1 < capacity ==> grown == buf && capacity' == capacity
    ensures used + |text| + 1 >= capacity ==>
      fresh(grown) && capacity' >= 2 * capacity && capacity' <= 2 * (used + |text| + 1)
    ensures capacity' == Doubled(capacity, doublings)
    ensures grown[..used'] == old(buf[..used]) + text && grown[used'] == '\0'
  {
    grown, capacity', doublings := buf, capacity, 0;
    var n := |text|;
    if used + n + 1 >= capacity {
      var newcap := capacity * 2;
      ghost var k: nat := 1;
      while used + n + 1 >= newcap
        invariant newcap >= 2 * capacity && newcap <= 2 * (used + n + 1)
        invariant newcap == Doubled(capacity, k)
        decreases used + n + 1 - newcap
      {
        newcap := newcap * 2;
        k := k + 1;
      }
      grown := Realloc(buf, newcap);
      capacity', doublings := newcap, k;
    }
    assert grown[..used] == old(buf[..used]);
    CopyInto(grown, used, text);
    assert grown[..used + n] == grown[..used] + grown[used..used + n];
    used' := used + n;
    grown[used'] := '\0';
  }

  /** One pass of listToString's node loop: the node's `%d->` text is
      appended; a capacity that is 256 doubled e times stays a doubling of 256. */
  method AppendNode(buf: array<char>, used: nat, ghost e: nat, v: int)
    returns (grown: array<char>, used': nat, ghost e': nat)
    requires buf.Length == Doubled(256, e) && used < buf.Length
    modifies buf
    ensures grown == buf || fresh(grown)
    ensures grown.Length == Doubled(256, e') && used' < grown.Length
    ensures grown[..used'] == old(buf[..used]) + Item(v) && grown[used'] == '\0'
  {
    var capacity: nat;
    ghost var d: nat;
    grown, used', capacity, d := AppendGrowing(buf, used, buf.Length, Item(v));
    DoubledAdd(256, e, d);
    e' := e + d;
  }

  /** The last step of listToString: append "NULL" and a NUL, reallocating to
      exactly the size needed when the buffer is too short. */
  method AppendTerminator(buf: array<char>, used: nat, capacity: nat)
    returns (grown: array<char>, used': nat)
    requires capacity == buf.Length && used < capacity
    modifies buf
    ensures grown == buf || fresh(grown)
    ensures used' == used + 4 && used' < grown.Length
    ensures used + 5 >= capacity ==> fresh(grown) && grown.Length == used + 5
    ensures used + 5 < capacity ==> grown == buf
    ensures grown[..used'] == old(buf[..used]) + "NULL" && grown[used'] == '\0'
  {
    var tail := "NULL";
    var tailLen := |tail|;
    grown := buf;
    if used + tailLen + 1 >= capacity {
      grown := Realloc(buf, used + tailLen + 1);
    }
    assert grown[..used] == old(buf[..used]);
    CopyInto(grown, used, tail);
    assert grown[..used + tailLen] == grown[..used] + grown[used..used + tailLen];
    used' := used + tailLen;
    grown[used'] := '\0';
  }

  /** A node of the chain: one value and the link to its successor. */
  class Node {
    var value: int
    var next: Node?

    /** create_node: a node holding `value` with no successor. */
    constructor (value: int)
      ensures this.value == value && next == null
    {
      this.value := value;
      this.next := null;
    }
  }

  class List {
    var head: Node?

    ghost var Contents: seq<int>
    ghost var Nodes: seq<Node>
    ghost var Repr: set<object>

    /** The chain from `head` visits `Nodes` in order, each node once, ends
        in null, and node i holds `Contents[i]`. A valid list has a null
        `head` exactly when it is empty. */
    ghost predicate Valid()
      reads this, Repr
      ensures Valid() ==> this in Repr && (head == null <==> Contents == [])
    {
      && this in Repr
      && |Nodes| == |Contents|
      && (forall i :: 0 <= i < |Nodes| ==> Nodes[i] in Repr)
      && head == (if Nodes == [] then null else Nodes[0])
      && (forall i :: 0 <= i < |Nodes| ==> Nodes[i].value == Contents[i])
      && (forall i :: 0 <= i < |Nodes| - 1 ==> Nodes[i].next == Nodes[i + 1])
      && (Nodes != [] ==> Nodes[|Nodes| - 1].next == null)
      && (forall i, j :: 0 <= i < j < |Nodes| ==> Nodes[i] != Nodes[j])
    }

    /** The successor of node k is node k+1; only the last node has none. */
    lemma SuccessorOf(k: int)
      requires Valid() && 0 <= k < |Nodes|
      ensures Nodes[k].next == (if k + 1 < |Nodes| then Nodes[k + 1] else null)
      ensures Nodes[k].next == null <==> k == |Nodes| - 1
    {
    }

    /** list_alloc: a new empty list. */
    constructor ()
      ensures Valid() && fresh(Repr)
      ensures Contents == []
    {
      head := null;
      Contents := [];
      Nodes := [];
      Repr := {this};
    }

    /** list_length: the number of nodes reachable from `head`. */
    method Length() returns (count: nat)
      requires Valid()
      ensures count == |Contents|
    {
      var cursor := head;
      count := 0;
      while cursor != null
        invariant count <= |Nodes|
        invariant cursor == if count < |Nodes| then Nodes[count] else null
        decreases |Nodes| - count
      {
        count := count + 1;
        cursor := cursor.next;
      }
    }

    /** list_add_to_back: walk to the last node and link a new one after it. */
    method AddToBack(value: int)
      requires Valid()
      modifies Repr
      ensures Valid() && fresh(Repr - old(Repr))
      ensures Contents == old(Contents) + [value]
    {
      var node := new Node(value);
      if head == null {
        head := node;
      } else {
        var cursor := head;
        ghost var k := 0;
        while cursor.next != null
          invariant 0 <= k < |Nodes| && cursor == Nodes[k]
          decreases |Nodes| - k
        {
          cursor := cursor.next;
          k := k + 1;
        }
        SuccessorOf(k);
        cursor.next := node;
      }
      Nodes := Nodes + [node];
      Contents := Contents + [value];
      Repr := Repr + {node};
    }

    /** list_add_to_front: a new node becomes the head. */
    method AddToFront(value: int)
      requires Valid()
      modifies Repr
      ensures Valid() && fresh(Repr - old(Repr))
      ensures Contents == [value] + old(Contents)
    {
      var node := new Node(value);
      node.next := head;
      head := node;
      Nodes := [node] + Nodes;
      Contents := [value] + Contents;
      Repr := Repr + {node};
    }

    /** list_add_at_index: insert so that `value` sits at 1-based position
        `index`; 1 goes through AddToFront, an index outside 1..length+1 is
        ignored. */
    method AddAtIndex(value: int, index: int)
      requires Valid()
      modifies Repr
      ensures Valid() && fresh(Repr - old(Repr))
      ensures Contents == InsertAt(old(Contents), value, index)
    {
      if index < 1 {
        return;
      }
      if index == 1 {
        AddToFront(value);
        return;
      }
      var pos := 1;
      var cursor := head;
      while cursor != null && pos < index - 1
        invariant 1 <= pos <= index - 1
        invariant pos - 1 <= |Nodes|
        invariant cursor == if pos - 1 < |Nodes| then Nodes[pos - 1] else null
        decreases index - pos
      {
        cursor := cursor.next;
        pos := pos + 1;
      }
      if cursor == null {
        return;
      }
      LinkAfter(cursor, pos - 1, value);
    }

    /** The linking step of list_add_at_index: a new node holding `value`
        is linked in after node p. */
    method LinkAfter(cursor: Node, ghost p: nat, value: int)
      requires Valid() && p < |Nodes| && cursor == Nodes[p]
      modifies Repr
      ensures Valid() && fresh(Repr - old(Repr))
      ensures Contents == old(Contents)[..p + 1] + [value] + old(Contents)[p + 1..]
    {
      ghost var before, n := Nodes, |Nodes|;
      SuccessorOf(p);
      var node := new Node(value);
      node.next := cursor.next;
      cursor.next := node;
      Nodes := before[..p + 1] + [node] + before[p + 1..];
      Contents := Contents[..p + 1] + [value] + Contents[p + 1..];
      Repr := Repr + {node};
      forall i | 0 <= i < n + 1
        ensures Nodes[i] == (if i <= p then before[i] else if i == p + 1 then node else before[i - 1])
        ensures Nodes[i] in Repr && Nodes[i].value == Contents[i]
        ensures Nodes[i].next == (if i + 1 < n + 1 then Nodes[i + 1] else null)
      {
        if i < p {
          assert before[i] != before[p];
        } else if i > p + 1 {
          assert before[i - 1] != before[p];
        }
      }
      forall i, j | 0 <= i < j < n + 1
        ensures Nodes[i] != Nodes[j]
      {
        if j <= p || i > p + 1 || (i <= p && j > p + 1) {
          assert Nodes[i] == before[if i <= p then i else i - 1];
          assert Nodes[j] == before[if j <= p then j else j - 1];
        }
      }
    }

    /** list_remove_from_back: unlink the last node and return its value;
        -1 and no change on an empty list. */
    method RemoveFromBack() returns (r: int)
      requires Valid()
      modifies Repr
      ensures Valid() && fresh(Repr - old(Repr))
      ensures old(Contents) == [] ==> r == Failure && Contents == old(Contents)
      ensures old(Contents) != [] ==>
        r == old(Contents)[|old(Contents)| - 1] && Contents == old(Contents)[..|old(Contents)| - 1]
    {
      if head == null {
        return Failure;
      }
      if head.next == null {
        SuccessorOf(0);
        var last := head;
        r := last.value;
        head := null;
        Nodes, Contents := [], [];
        Repr := Repr - {last};
        return;
      }
      var cursor := head;
      ghost var k := 0;
      while cursor.next.next != null
        invariant 0 <= k < |Nodes| - 1 && cursor == Nodes[k]
        invariant cursor.next == Nodes[k + 1]
        decreases |Nodes| - k
      {
        cursor := cursor.next;
        k := k + 1;
      }
      var last := cursor.next;
      SuccessorOf(k + 1);
      r := last.value;
      cursor.next := null;
      Nodes, Contents := Nodes[..k + 1], Contents[..k + 1];
      Repr := Repr - {last};
    }

    /** list_remove_from_front: unlink the head node and return its value;
        -1 and no change on an empty list. */
    method RemoveFromFront() returns (r: int)
      requires Valid()
      modifies Repr
      ensures Valid() && fresh(Repr - old(Repr))
      ensures old(Contents) == [] ==> r == Failure && Contents == old(Contents)
      ensures old(Contents) != [] ==> r == old(Contents)[0] && Contents == old(Contents)[1..]
    {
      if head == null {
        return Failure;
      }
      var first := head;
      r := first.value;
      head := first.next;
      Nodes, Contents := Nodes[1..], Contents[1..];
      Repr := Repr - {first};
    }

    /** list_remove_at_index: unlink the node at 1-based position `index` and
        return its value; 1 goes through RemoveFromFront; -1 and no change on
        an empty list or an index outside 1..length. */
    method RemoveAtIndex(index: int) returns (r: int)
      requires Valid()
      modifies Repr
      ensures Valid() && fresh(Repr - old(Repr))
      ensures 1 <= index <= |old(Contents)| ==> r == old(Contents)[index - 1]
      ensures !(1 <= index <= |old(Contents)|) ==> r == Failure
      ensures Contents == RemoveAt(old(Contents), index)
    {
      if head == null {
        return Failure;
      }
      if index < 1 {
        return Failure;
      }
      if index == 1 {
        r := RemoveFromFront();
        return;
      }
      var pos := 1;
      var cursor := head;
      while cursor != null && pos < index - 1
        invariant 1 <= pos <= index - 1
        invariant pos - 1 <= |Nodes|
        invariant cursor == if pos - 1 < |Nodes| then Nodes[pos - 1] else null
        decreases index - pos
      {
        cursor := cursor.next;
        pos := pos + 1;
      }
      if cursor == null || cursor.next == null {
        return Failure;
      }
      r := UnlinkAfter(cursor, pos - 1);
    }

    /** The unlinking step of list_remove_at_index: node p's successor is
        taken out of the chain and its value returned. */
    method UnlinkAfter(cursor: Node, ghost p: nat) returns (r: int)
      requires Valid() && p + 1 < |Nodes| && cursor == Nodes[p]
      modifies Repr
      ensures Valid() && fresh(Repr - old(Repr))
      ensures r == old(Contents)[p + 1]
      ensures Contents == old(Contents)[..p + 1] + old(Contents)[p + 2..]
    {
      ghost var before, n := Nodes, |Nodes|;
      SuccessorOf(p);
      SuccessorOf(p + 1);
      var victim := cursor.next;
      r := victim.value;
      cursor.next := victim.next;
      Nodes := before[..p + 1] + before[p + 2..];
      Contents := Contents[..p + 1] + Contents[p + 2..];
      Repr := Repr - {victim};
      forall i | 0 <= i < n - 1
        ensures Nodes[i] == (if i <= p then before[i] else before[i + 1])
        ensures Nodes[i] in Repr
        ensures Nodes[i].next == (if i + 1 < n - 1 then Nodes[i + 1] else null)
      {
        if i < p {
          assert before[i] != before[p] && before[i] != before[p + 1];
        } else if i > p {
          assert before[i + 1] != before[p] && before[i + 1] != before[p + 1];
        }
      }
    }

    /** The node loop of listToString: a buffer of 256 chars, doubled as
        often as needed, that holds every node's text followed by a NUL. */
    method AppendNodes() returns (buf: array<char>, used: nat, ghost e: nat)
      requires Valid()
      ensures fresh(buf) && buf.Length == Doubled(256, e)
      ensures used < buf.Length
      ensures buf[..used] == RenderItems(Contents) && buf[used] == '\0'
    {
      used := 0;
      buf := new char[256];
      buf[0] := '\0';
      var cur := head;
      ghost var nodes, values := Nodes, Contents;
      ghost var k := 0;
      e := 0;
      while cur != null
        invariant k <= |nodes|
        invariant cur == if k < |nodes| then nodes[k] else null
        invariant fresh(buf) && buf.Length == Doubled(256, e)
        invariant used < buf.Length
        invariant buf[..used] == RenderItems(values[..k])
        invariant buf[used] == '\0'
        decreases |nodes| - k
      {
        buf, used, e := AppendNode(buf, used, e, cur.value);
        RenderItemsPrefix(values, k);
        cur := cur.next;
        k := k + 1;
      }
      assert values[..k] == values;
    }

    /** listToString: the list's text, NUL-terminated, in a buffer that
        starts at 256 chars and doubles until each node's text fits; its
        final size is a doubling of 256 or exactly the text and its NUL. */
    method ToString() returns (buf: array<char>)
      requires Valid()
      ensures fresh(buf)
      ensures |Render(Contents)| < buf.Length
      ensures buf[..|Render(Contents)|] == Render(Contents)
      ensures buf[|Render(Contents)|] == '\0'
      ensures '\0' !in buf[..|Render(Contents)|]
      ensures buf.Length == |Render(Contents)| + 1 || exists e: nat :: buf.Length == Doubled(256, e)
    {
      var used: nat;
      ghost var e: nat;
      buf, used, e := AppendNodes();
      buf, used := AppendTerminator(buf, used, buf.Length);
      if buf.Length != used + 1 {
        assert buf.Length == Doubled(256, e);
      }
      RenderHasNoNul(Contents);
    }

    /** list_is_in: whether some node holds `value`. */
    method IsIn(value: int) returns (found: bool)
      requires Valid()
      ensures found <==> value in Contents
    {
      var cursor := head;
      ghost var k := 0;
      while cursor != null
        invariant k <= |Nodes|
        invariant cursor == if k < |Nodes| then Nodes[k] else null
        invariant value !in Contents[..k]
        decreases |Nodes| - k
      {
        if cursor.value == value {
          return true;
        }
        cursor := cursor.next;
        k := k + 1;
      }
      return false;
    }

    /** list_get_elem_at: the value at 1-based position `index`, or -1 when
        `index` is outside 1..length. */
    method GetElemAt(index: int) returns (r: int)
      requires Valid()
      ensures 1 <= index <= |Contents| ==> r == Contents[index - 1]
      ensures !(1 <= index <= |Contents|) ==> r == Failure
    {
      if index < 1 {
        return Failure;
      }
      var cursor := head;
      var pos := 1;
      while cursor != null
        invariant 1 <= pos <= index
        invariant pos - 1 <= |Nodes|
        invariant cursor == if pos - 1 < |Nodes| then Nodes[pos - 1] else null
        decreases |Nodes| - pos
      {
        if pos == index {
          return cursor.value;
        }
        cursor := cursor.next;
        pos := pos + 1;
      }
      return Failure;
    }

    /** list_get_index_of: the 1-based position of the first node holding
        `value`, or -1 when no node holds it. */
    method GetIndexOf(value: int) returns (r: int)
      requires Valid()
      ensures value in Contents ==>
        1 <= r <= |Contents| && Contents[r - 1] == value && value !in Contents[..r - 1]
      ensures value !in Contents ==> r == Failure
    {
      var cursor := head;
      var pos := 1;
      while cursor != null
        invariant 1 <= pos <= |Nodes| + 1
        invariant cursor == if pos - 1 < |Nodes| then Nodes[pos - 1] else null
        invariant value !in Contents[..pos - 1]
        decreases |Nodes| + 1 - pos
      {
        if cursor.value == value {
          return pos;
        }
        cursor := cursor.next;
        pos := pos + 1;
      }
      return Failure;
    }
  }
}

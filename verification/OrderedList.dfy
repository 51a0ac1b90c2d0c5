/** The sorted singly-linked integer set of src/rwlock/pth_ll_rwl.c.

    The chain of `list_node_s` nodes reachable from `head` is represented by the
    sequence of their `data` fields, head first. Each list operation is a pure
    function from the old chain to the new chain together with the C return
    value (1 for "changed / found", 0 for "no-op / absent"). Node storage
    (malloc/free) is abstract: splicing a node in or out is sequence surgery.
 */
module OrderedList {
  import SeqFacts

  /** Keys strictly increase along the chain, so no key occurs twice. */
  predicate Sorted(s: seq<int>) {
    forall i, j :: 0 <= i < j < |s| ==> s[i] < s[j]
  }

  /** The set of keys the chain holds. */
  function Keys(s: seq<int>): set<int> {
    set x | x in s
  }

  /** The chain after an operation and the value the C function returns. */
  datatype Outcome = Outcome(list: seq<int>, rv: int)

  /** Where the search loop `while (curr != NULL && curr->data < value)` stops:
      the first node whose key is not smaller than `v`, or |s| for NULL. */
  function Scan(s: seq<int>, v: int): (p: nat)
    ensures p <= |s|
    ensures forall j :: 0 <= j < p ==> s[j] < v
    ensures p < |s| ==> s[p] >= v
    decreases |s|
  {
    if |s| == 0 || s[0] >= v then 0 else 1 + Scan(s[1..], v)
  }

  /** `Member`: 1 when the scan stops on a node holding `v`, else 0. */
  function Member(s: seq<int>, v: int): (rv: int)
    ensures rv == 0 || rv == 1
    ensures rv == 1 ==> v in s
  {
    var p := Scan(s, v);
    if p == |s| || s[p] > v then 0 else 1
  }

  /** On a sorted chain `Member` finds exactly the keys the chain holds. */
  lemma MemberSorted(s: seq<int>, v: int)
    requires Sorted(s)
    ensures Member(s, v) == 1 <==> v in s
  {
    var p := Scan(s, v);
    if v in s {
      var j :| 0 <= j < |s| && s[j] == v;
      assert p <= j;
      assert s[p] <= s[j];
    }
  }

  /** `Insert`: a new node goes between the last smaller key and the first
      key that is not smaller, unless that key already equals `v`. */
  function Insert(s: seq<int>, v: int): (r: Outcome)
    ensures r.rv == 0 || r.rv == 1
    ensures r.rv == 0 ==> v in s && r.list == s
    ensures r.rv == 1 ==> |r.list| == |s| + 1 && multiset(r.list) == multiset(s) + multiset{v}
  {
    var p := Scan(s, v);
    if p == |s| || s[p] > v then
      SeqFacts.MultisetInsertAt(s, p, v);
      Outcome(s[..p] + [v] + s[p..], 1)
    else
      Outcome(s, 0)
  }

  /** On a sorted chain `Insert` changes the list exactly when `v` is absent,
      adds exactly `v` to the key set and keeps the chain sorted. */
  lemma InsertSorted(s: seq<int>, v: int)
    requires Sorted(s)
    ensures Sorted(Insert(s, v).list)
    ensures Insert(s, v).rv == 1 <==> v !in s
    ensures Keys(Insert(s, v).list) == Keys(s) + {v}
  {
    var p := Scan(s, v);
    MemberSorted(s, v);
    if p == |s| || s[p] > v {
      SpliceInSorted(s, p, v);
    } else {
      assert s[p] == v;
    }
  }

  /** `Delete`: unlinks the node the scan stops on when it holds `v`; the
      predecessor's link bypasses it, or `head` advances when it was first. */
  function Delete(s: seq<int>, v: int): (r: Outcome)
    ensures r.rv == 0 || r.rv == 1
    ensures r.rv == 0 ==> r.list == s
    ensures r.rv == 1 ==> v in s && |r.list| == |s| - 1 && multiset(r.list) == multiset(s) - multiset{v}
    ensures r.rv == 1 && |s| > 0 && s[0] == v ==> r.list == s[1..]
  {
    var p := Scan(s, v);
    if p < |s| && s[p] == v then
      SeqFacts.MultisetRemoveAt(s, p);
      Outcome(s[..p] + s[p + 1..], 1)
    else
      Outcome(s, 0)
  }

  /** A successful `Delete` removes one node and keeps the others in order. */
  lemma DeleteUnlinksOne(s: seq<int>, v: int)
    requires Delete(s, v).rv == 1
    ensures exists p :: 0 <= p < |s| && s[p] == v && Delete(s, v).list == s[..p] + s[p + 1..]
  {
    var p := Scan(s, v);
    assert s[p] == v && Delete(s, v).list == s[..p] + s[p + 1..];
  }

  /** On a sorted chain `Delete` changes the list exactly when `v` is present,
      removes exactly `v` from the key set and keeps the chain sorted. */
  lemma DeleteSorted(s: seq<int>, v: int)
    requires Sorted(s)
    ensures Sorted(Delete(s, v).list)
    ensures Delete(s, v).rv == 1 <==> v in s
    ensures Keys(Delete(s, v).list) == Keys(s) - {v}
  {
    var p := Scan(s, v);
    MemberSorted(s, v);
    if p < |s| && s[p] == v {
      SpliceOutSorted(s, p);
      SpliceOutKeys(s, p);
    }
  }

  /** `Is_empty`: 1 exactly when `head` is NULL. */
  function IsEmpty(s: seq<int>): (rv: int)
    ensures rv == 0 || rv == 1
    ensures rv == 1 <==> Keys(s) == {}
  {
    KeysEmpty(s);
    if |s| == 0 then 1 else 0
  }

  /** Linking a new node holding `v` in between the keys below it and the
      keys above it keeps the chain sorted and adds `v` to the key set. */
  lemma SpliceInSorted(s: seq<int>, p: nat, v: int)
    requires p <= |s| && Sorted(s)
    requires forall j :: 0 <= j < p ==> s[j] < v
    requires p < |s| ==> s[p] > v
    ensures Sorted(s[..p] + [v] + s[p..])
    ensures Keys(s[..p] + [v] + s[p..]) == Keys(s) + {v}
  {
    var t := s[..p] + [v] + s[p..];
    assert |t| == |s| + 1;
    assert forall j :: 0 <= j < p ==> t[j] == s[j];
    assert t[p] == v;
    assert forall j :: p < j < |t| ==> t[j] == s[j - 1];
    forall i, j | 0 <= i < j < |t| ensures t[i] < t[j] {
      if j < p {
        assert t[i] == s[i] && t[j] == s[j];
      } else if j == p {
        assert t[i] == s[i];
      } else if i < p {
        assert t[i] == s[i] && t[j] == s[j - 1];
        assert s[i] < v < s[p] <= s[j - 1];
      } else if i == p {
        assert t[j] == s[j - 1];
        assert v < s[p] <= s[j - 1];
      } else {
        assert t[i] == s[i - 1] && t[j] == s[j - 1];
      }
    }
    assert Keys(t) <= Keys(s) + {v} by {
      forall x | x in t ensures x in s || x == v {
        var j :| 0 <= j < |t| && t[j] == x;
        if j < p { assert s[j] == x; } else if j > p { assert s[j - 1] == x; }
      }
    }
    assert Keys(s) + {v} <= Keys(t) by {
      assert t[p] == v;
      forall x | x in s ensures x in t {
        var j :| 0 <= j < |s| && s[j] == x;
        if j < p { assert t[j] == x; } else { assert t[j + 1] == x; }
      }
    }
  }

  /** Unlinking a node of a sorted chain keeps it sorted. */
  lemma SpliceOutSorted(s: seq<int>, p: nat)
    requires p < |s| && Sorted(s)
    ensures Sorted(s[..p] + s[p + 1..])
  {
    var t := s[..p] + s[p + 1..];
    assert forall j :: 0 <= j < |t| ==> t[j] == (if j < p then s[j] else s[j + 1]);
    forall i, j | 0 <= i < j < |t| ensures t[i] < t[j] {
      var i' := if i < p then i else i + 1;
      var j' := if j < p then j else j + 1;
      assert t[i] == s[i'] && t[j] == s[j'] && i' < j';
    }
  }

  /** Unlinking the node at `p` of a sorted chain drops exactly its key. */
  lemma SpliceOutKeys(s: seq<int>, p: nat)
    requires p < |s| && Sorted(s)
    ensures Keys(s[..p] + s[p + 1..]) == Keys(s) - {s[p]}
  {
    var t := s[..p] + s[p + 1..];
    forall x ensures x in Keys(t) <==> x in Keys(s) - {s[p]} {
      if x in t {
        var j :| 0 <= j < |t| && t[j] == x;
        var j' := if j < p then j else j + 1;
        assert s[j'] == x && (j' < p || p < j');
      }
      if x in s && x != s[p] {
        var j :| 0 <= j < |s| && s[j] == x;
        if j < p { assert t[j] == x; } else { assert t[j - 1] == x; }
      }
    }
  }

  /** A chain has no keys exactly when it has no nodes. */
  lemma KeysEmpty(s: seq<int>)
    ensures |s| == 0 <==> Keys(s) == {}
  {
    if |s| > 0 {
      assert s[0] in Keys(s);
    }
  }

  /** `Free_list`: walks the chain with `current` / `following` and releases
      every node. Returns the keys of the released nodes in release order. */
  method FreeList(s: seq<int>) returns (freed: seq<int>)
    ensures freed == s
  {
    freed := [];
    if IsEmpty(s) == 1 {
      return;
    }
    var current := 0;
    var following := 1;
    while following < |s|
      invariant 1 <= following <= |s|
      invariant current == following - 1
      invariant freed == s[..current]
    {
      freed := freed + [s[current]];
      current := following;
      following := current + 1;
    }
    freed := freed + [s[current]];
  }

  /** The keys of a sorted chain are smaller than every later key, in particular
      the head key is the least. */
  lemma SortedTail(s: seq<int>)
    requires Sorted(s) && |s| > 0
    ensures Sorted(s[1..])
    ensures Keys(s[1..]) == Keys(s) - {s[0]}
    ensures forall x :: x in Keys(s) ==> s[0] <= x
  {
    forall x | x in Keys(s) ensures s[0] <= x {
      var i :| 0 <= i < |s| && s[i] == x;
    }
    forall x | x in Keys(s) - {s[0]} ensures x in Keys(s[1..]) {
      var i :| 0 <= i < |s| && s[i] == x;
      assert s[1..][i - 1] == x;
    }
  }

  /** A sorted chain is determined by its key set: the list the operations
      maintain is the canonical representation of the set. */
  lemma {:induction false} SortedUnique(a: seq<int>, b: seq<int>)
    requires Sorted(a) && Sorted(b)
    requires Keys(a) == Keys(b)
    ensures a == b
    decreases |a|
  {
    KeysEmpty(a);
    KeysEmpty(b);
    if |a| > 0 {
      SortedTail(a);
      SortedTail(b);
      assert a[0] in Keys(a);
      assert b[0] in Keys(b);
      assert a[0] == b[0];
      SortedUnique(a[1..], b[1..]);
      assert a == [a[0]] + a[1..];
      assert b == [b[0]] + b[1..];
    }
  }

  /** On a sorted chain `Insert` yields THE sorted chain of the old keys plus `v`. */
  lemma InsertIsSortedUnion(s: seq<int>, v: int, t: seq<int>)
    requires Sorted(s) && Sorted(t)
    requires Keys(t) == Keys(s) + {v}
    ensures Insert(s, v).list == t
  {
    InsertSorted(s, v);
    SortedUnique(Insert(s, v).list, t);
  }

  /** On a sorted chain `Delete` yields THE sorted chain of the old keys minus `v`. */
  lemma DeleteIsSortedDifference(s: seq<int>, v: int, t: seq<int>)
    requires Sorted(s) && Sorted(t)
    requires Keys(t) == Keys(s) - {v}
    ensures Delete(s, v).list == t
  {
    DeleteSorted(s, v);
    SortedUnique(Delete(s, v).list, t);
  }

  /** An empty chain is one on which no key is a member. */
  lemma IsEmptyIffNoMember(s: seq<int>)
    ensures IsEmpty(s) == 1 <==> forall v :: Member(s, v) == 0
  {
    if |s| > 0 {
      assert Scan(s, s[0]) == 0;
      assert Member(s, s[0]) == 1;
    }
  }

  /** No lost update: a key just inserted is found, a key just deleted is not. */
  lemma InsertThenMember(s: seq<int>, k: int)
    requires Sorted(s)
    ensures Member(Insert(s, k).list, k) == 1
  {
    InsertSorted(s, k);
    MemberSorted(Insert(s, k).list, k);
  }

  lemma DeleteThenMember(s: seq<int>, k: int)
    requires Sorted(s)
    ensures Member(Delete(s, k).list, k) == 0
  {
    DeleteSorted(s, k);
  }

  /** Inserting the same absent key twice returns 1 then 0 and leaves exactly
      one node holding it. */
  lemma InsertTwice(s: seq<int>, k: int)
    requires Sorted(s) && k !in s
    ensures Insert(s, k).rv == 1
    ensures Insert(Insert(s, k).list, k).rv == 0
    ensures multiset(Insert(Insert(s, k).list, k).list)[k] == 1
  {
    InsertSorted(s, k);
    assert multiset(s)[k] == 0;
  }
}

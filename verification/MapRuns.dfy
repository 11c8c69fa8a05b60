/** Whole runs of the ordered map against a finite map. */
module MapRuns {
  import opened MapTree
  import opened MapStore

  datatype Op = Put(key: int, data: Value) | Drop(key: int)

  /** What the finite map does with one operation, and what the caller is told. */
  function Apply(m: map<int, Value>, op: Op): map<int, Value> {
    match op
    case Put(k, d) => if k in m then m else m[k := d]
    case Drop(k) => m - {k}
  }

  predicate Accepts(m: map<int, Value>, op: Op) {
    match op
    case Put(k, _) => k !in m
    case Drop(k) => k in m
  }

  function After(ops: seq<Op>): map<int, Value> {
    if ops == [] then map[] else Apply(After(ops[..|ops| - 1]), ops[|ops| - 1])
  }

  predicate Ascending(s: seq<int>) {
    forall i, j :: 0 <= i < j < |s| ==> s[i] < s[j]
  }

  method Walk(m: RbMap, ghost s: seq<MapNode>) returns (keys: seq<int>, data: seq<Value>)
    requires m.Valid() && s == Inorder(m.tree) && Increasing(s) && forall n :: n in s ==> n in m.Repr
    ensures |keys| == |data| == |s|
    ensures forall i :: 0 <= i < |keys| ==> keys[i] == s[i].key && data[i] == s[i].data
  {
    hide RbMap.Valid, Inorder, Place, Increasing;
    var node := m.First();
    keys, data := [], [];
    while node != null
      invariant |keys| == |data| <= |s|
      invariant node == Listed(s, |keys|)
      invariant forall i :: 0 <= i < |keys| ==> keys[i] == s[i].key && data[i] == s[i].data
      decreases |s| - |keys|
    {
      PlaceIs(s, |keys|);
      var next := m.Next(node);
      keys, data := keys + [node.key], data + [node.data];
      node := next;
    }
  }

  /** map_first followed by map_next to the end. */
  method Enumerate(m: RbMap) returns (keys: seq<int>, data: seq<Value>)
    requires m.Valid()
    ensures Ascending(keys) && |keys| == |data| == m.size == |m.Contents()|
    ensures forall k :: k in keys <==> k in m.Contents()
    ensures forall i :: 0 <= i < |keys| ==> keys[i] in m.Contents() && data[i] == m.Contents()[keys[i]]
  {
    ghost var s := Inorder(m.tree);
    ToMapSize(s);
    InorderNodes(m.tree);
    keys, data := Walk(m, s);
    ListedMap(s, keys, data);
  }

  lemma ListedMap(s: seq<MapNode>, keys: seq<int>, data: seq<Value>)
    requires Increasing(s) && |keys| == |data| == |s|
    requires forall i :: 0 <= i < |keys| ==> keys[i] == s[i].key && data[i] == s[i].data
    ensures forall k :: k in keys <==> k in ToMap(s)
    ensures forall i :: 0 <= i < |keys| ==> keys[i] in ToMap(s) && data[i] == ToMap(s)[keys[i]]
  {
    ToMapKeys(s);
    forall i | 0 <= i < |s| ensures s[i].key in ToMap(s) && ToMap(s)[s[i].key] == s[i].data {
      ToMapAt(s, i);
    }
    forall k | k in ToMap(s) ensures k in keys {
      var i :| 0 <= i < |s| && s[i].key == k;
      assert keys[i] == k;
    }
  }

  method Perform(m: RbMap, op: Op) returns (ok: bool)
    requires m.Valid() && m.size < 0x4000_0000_0000_0000
    modifies m, m.Repr
    ensures m.Valid() && fresh(m.Repr - old(m.Repr)) && m.size <= old(m.size) + 1
    ensures m.Contents() == Apply(old(m.Contents()), op) && ok == Accepts(old(m.Contents()), op)
  {
    match op {
      case Put(k, d) =>
        ok := m.Insert(k, d, true);
      case Drop(k) =>
        var node := m.Find(k);
        ok := node != null;
        m.Erase(node);
    }
  }

  lemma AfterNext(ops: seq<Op>, i: nat)
    requires i < |ops|
    ensures After(ops[..i + 1]) == Apply(After(ops[..i]), ops[i])
  {
    assert ops[..i + 1][..i] == ops[..i];
  }

  lemma NothingYet(ops: seq<Op>)
    ensures After(ops[..0]) == map[]
  {}

  method Replay(ops: seq<Op>) returns (m: RbMap, answers: seq<bool>)
    requires |ops| < 0x4000_0000_0000_0000
    ensures m.Valid() && m.Contents() == After(ops)
    ensures |answers| == |ops| && forall i :: 0 <= i < |ops| ==> answers[i] == Accepts(After(ops[..i]), ops[i])
  {
    hide After, Apply, Accepts, RbMap.Valid, RbMap.Contents;
    m := new RbMap();
    answers := [];
    NothingYet(ops);
    for i := 0 to |ops|
      invariant fresh(m) && m.Valid() && fresh(m.Repr) && m.size <= i
      invariant m.Contents() == After(ops[..i]) && |answers| == i
      invariant forall j :: 0 <= j < i ==> answers[j] == Accepts(After(ops[..j]), ops[j])
    {
      AfterNext(ops, i);
      var ok := Perform(m, ops[i]);
      answers := answers + [ok];
    }
    assert ops[..|ops|] == ops;
  }

  /** Every run from the empty map, shorter than the depth bound allows for, answers
      like a finite map and ends with its contents in ascending order. */
  method Run(ops: seq<Op>) returns (answers: seq<bool>, keys: seq<int>, data: seq<Value>)
    requires |ops| < 0x4000_0000_0000_0000
    ensures |answers| == |ops|
    ensures forall i :: 0 <= i < |ops| ==> answers[i] == Accepts(After(ops[..i]), ops[i])
    ensures Ascending(keys) && |keys| == |data| == |After(ops)|
    ensures forall k :: k in keys <==> k in After(ops)
    ensures forall i :: 0 <= i < |keys| ==> keys[i] in After(ops) && data[i] == After(ops)[keys[i]]
  {
    var m;
    m, answers := Replay(ops);
    keys, data := Enumerate(m);
  }
}

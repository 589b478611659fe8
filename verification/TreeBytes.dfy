/** Every node of a tree that keeps its invariant survives encoding. */
module TreeBytes {
  import opened Pages
  import opened Bytes
  import opened Queries
  import opened BTreeSpec
  import opened BTreePages
  import opened NodeCodec

  /** Page ids are 32 bits wide and values fill their slots. */
  ghost predicate FieldsFit(t: Tree, nxt: nat) {
    match t
    case Leaf(_, es) => nxt < 0x1_0000_0000 && forall i :: 0 <= i < |es| ==> |es[i].val| == VALUE_SIZE
    case Node(_, _, kids) => forall i :: 0 <= i < |kids| ==> kids[i].id < 0x1_0000_0000
  }

  /** The page of a node of an ordered tree fits and is read back as written. */
  lemma {:induction false} NodeSurvives(f: map<nat, Page>, t: Tree, h: nat, lo: int, hi: int, nxt: nat)
    requires Ordered(t, h, lo, hi) && 0 <= lo && hi <= KEY_LIMIT && Rep(f, t, nxt) && FieldsFit(t, nxt)
    ensures |Content(f[t.id].data)| <= DATA_SIZE
    ensures (if t.Leaf? then DecodeLeaf(DataBytes(f[t.id].data)) else DecodeInternal(DataBytes(f[t.id].data))) == Ok(f[t.id].data)
  {
    hide Content, DataBytes, DecodeLeaf, DecodeInternal;
    match t
    case Leaf(_, es) =>
      assert LeafFits(es, nxt);
      LeafRoundTrip(es, nxt);
    case Node(_, keys, kids) =>
      assert InternalFits(keys, KidIds(kids));
      InternalRoundTrip(keys, KidIds(kids));
  }
}

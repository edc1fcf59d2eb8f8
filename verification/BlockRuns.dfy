/** Runs of the block manager: any sequence of allocations, frees and writes. */
module BlockRuns {
  import opened Bytes
  import opened Stores

  /** A call with what it returned: Alloc(0) is an allocation that found nothing. */
  datatype Call = Alloc(id: nat) | Free(id: nat) | Write(id: nat, b: Block)

  /** What one call does to the abstract disk. */
  ghost predicate Next(s: Store, c: Call, s': Store) {
    match c
    case Alloc(id) =>
      && (id == 0 <==> s.free == {})
      && (id == 0 ==> s' == s)
      && (id != 0 ==> id in s.free && (forall b :: b in s.free ==> id <= b) && s' == s.(free := s.free - {id}))
    case Free(id) => s' == if id in s.data && id !in s.free then Erase(s, {}, {id}) else s
    case Write(id, b) => id in s.data && s' == s.(data := s.data[id := b])
  }

  ghost predicate Run(states: seq<Store>, calls: seq<Call>) {
    && |states| == |calls| + 1
    && forall k :: 0 <= k < |calls| ==> Next(states[k], calls[k], states[k + 1])
  }

  /** A block once handed out stays in use until it is freed. */
  lemma {:induction false} StaysInUse(states: seq<Store>, calls: seq<Call>, i: nat, j: nat, id: nat)
    requires Run(states, calls) && i <= j <= |calls|
    requires id !in states[i].free
    requires forall k :: i <= k < j ==> calls[k] != Free(id)
    ensures id !in states[j].free
  {
    if i < j {
      StaysInUse(states, calls, i, j - 1, id);
      assert Next(states[j - 1], calls[j - 1], states[j]);
    }
  }

  /** No block is handed out twice without being freed in between. */
  lemma NeverTwice(states: seq<Store>, calls: seq<Call>, i: nat, j: nat, id: nat)
    requires Run(states, calls) && i < j < |calls| && id != 0
    requires calls[i] == Alloc(id) && calls[j] == Alloc(id)
    ensures exists k :: i < k < j && calls[k] == Free(id)
  {
    assert Next(states[i], calls[i], states[i + 1]) && Next(states[j], calls[j], states[j + 1]);
    if forall k :: i < k < j ==> calls[k] != Free(id) {
      StaysInUse(states, calls, i + 1, j, id);
      assert false;
    }
  }

  ghost predicate FreeIsZero(s: Store) {
    s.free <= s.data.Keys && forall b :: b in s.free ==> s.data[b] == ZERO_BLOCK
  }

  /** As long as writes go to blocks in use, every free block holds only zeros, in every state. */
  lemma {:induction false} FreeStaysZero(states: seq<Store>, calls: seq<Call>, k: nat)
    requires Run(states, calls) && k <= |calls| && FreeIsZero(states[0])
    requires forall j :: 0 <= j < |calls| && calls[j].Write? ==> calls[j].id !in states[j].free
    ensures FreeIsZero(states[k])
  {
    if k > 0 {
      FreeStaysZero(states, calls, k - 1);
      assert Next(states[k - 1], calls[k - 1], states[k]);
    }
  }
}

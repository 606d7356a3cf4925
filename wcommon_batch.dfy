/**
  wcommon_batch_clear and wcommon_batch_add: a llama_batch is a set of
  parallel arrays with one slot per token (token id, position, the
  sequences it belongs to and whether its logits are wanted) and a count
  of the slots in use. Adding writes the next free slot; clearing only
  resets the count.
*/
module WcommonBatch {
  /** What one slot of the batch holds. */
  datatype Entry = Entry(token: int, pos: int, seqIds: seq<int>, logits: bool)

  class Batch {
    const token: array<int>
    const pos: array<int>
    const nSeqId: array<int>
    /** Each slot's row of sequence ids, `nSeqMax` long; the slot uses the first nSeqId of them. */
    const seqId: array<seq<int>>
    const logits: array<bool>
    const capacity: nat
    const nSeqMax: nat
    var nTokens: nat

    ghost predicate Valid()
      reads this, nSeqId, seqId
    {
      token.Length == capacity && pos.Length == capacity && nSeqId.Length == capacity
      && seqId.Length == capacity && logits.Length == capacity
      && token != pos && token != nSeqId && pos != nSeqId
      && nTokens <= capacity
      && (forall k :: 0 <= k < capacity ==> |seqId[k]| == nSeqMax)
      && (forall k :: 0 <= k < nTokens ==> 0 <= nSeqId[k] <= nSeqMax)
    }

    /** The slot `k` as an entry. */
    function At(k: nat): Entry
      reads this, token, pos, nSeqId, seqId, logits
      requires Valid() && k < nTokens
    {
      Entry(token[k], pos[k], seqId[k][..nSeqId[k]], logits[k])
    }

    /** The slots in use, in order. */
    function Entries(): (es: seq<Entry>)
      reads this, token, pos, nSeqId, seqId, logits
      requires Valid()
      ensures |es| == nTokens && forall k :: 0 <= k < nTokens ==> es[k] == At(k)
    {
      EntriesUpTo(nTokens)
    }

    function EntriesUpTo(n: nat): (es: seq<Entry>)
      reads this, token, pos, nSeqId, seqId, logits
      requires Valid() && n <= nTokens
      ensures |es| == n && forall k :: 0 <= k < n ==> es[k] == At(k)
    {
      if n == 0 then [] else EntriesUpTo(n - 1) + [At(n - 1)]
    }

    /** llama_batch_init with room for `capacity` tokens, each in at most `nSeqMax` sequences. */
    constructor (capacity: nat, nSeqMax: nat)
      ensures Valid() && this.capacity == capacity && this.nSeqMax == nSeqMax
      ensures nTokens == 0 && Entries() == []
      ensures fresh(token) && fresh(pos) && fresh(nSeqId) && fresh(seqId) && fresh(logits)
    {
      token := new int[capacity];
      pos := new int[capacity];
      nSeqId := new int[capacity];
      seqId := new seq<int>[capacity](_ => seq(nSeqMax, _ => 0));
      logits := new bool[capacity];
      this.capacity := capacity;
      this.nSeqMax := nSeqMax;
      nTokens := 0;
    }

    /** wcommon_batch_clear: the count goes back to 0 and the slots keep their contents. */
    method Clear()
      requires Valid()
      modifies this
      ensures Valid() && nTokens == 0 && Entries() == []
    {
      nTokens := 0;
    }

    /**
      wcommon_batch_add: the token goes into slot nTokens, which must exist
      (the source aborts otherwise), in at most nSeqMax sequences (the row
      holds no more). No other slot changes.
    */
    method Add(id: int, p: int, seqIds: seq<int>, wantLogits: bool)
      requires Valid() && nTokens < capacity && |seqIds| <= nSeqMax
      modifies this, token, pos, nSeqId, seqId, logits
      ensures Valid() && nTokens == old(nTokens) + 1
      ensures token[..] == old(token[..])[old(nTokens) := id]
      ensures pos[..] == old(pos[..])[old(nTokens) := p]
      ensures nSeqId[..] == old(nSeqId[..])[old(nTokens) := |seqIds|]
      ensures seqId[..] == old(seqId[..])[old(nTokens) := seqIds + old(seqId[nTokens])[|seqIds|..]]
      ensures logits[..] == old(logits[..])[old(nTokens) := wantLogits]
      ensures Entries() == old(Entries()) + [Entry(id, p, seqIds, wantLogits)]
    {
      ghost var before := Entries();
      var n := nTokens;
      token[n] := id;
      pos[n] := p;
      nSeqId[n] := |seqIds|;
      WriteSeqIds(n, seqIds);
      logits[n] := wantLogits;
      nTokens := n + 1;
      assert seqId[n][..nSeqId[n]] == seqIds;
      forall k | 0 <= k < n
        ensures before[k] == At(k)
      {
        assert token[k] == old(token[k]) && pos[k] == old(pos[k]) && nSeqId[k] == old(nSeqId[k]);
        assert seqId[k] == old(seqId[k]) && logits[k] == old(logits[k]);
      }
      AddedEntries(before, n, Entry(id, p, seqIds, wantLogits));
    }

    /** The copy loop of wcommon_batch_add: the slot's first sequence ids become `seqIds`. */
    method WriteSeqIds(n: nat, seqIds: seq<int>)
      requires n < seqId.Length && |seqIds| <= |seqId[n]|
      modifies seqId
      ensures seqId[..] == old(seqId[..])[n := seqIds + old(seqId[n])[|seqIds|..]]
    {
      ghost var row := seqId[n];
      assert seqIds[..0] + row[0..] == row;
      var i := 0;
      while i < |seqIds|
        invariant 0 <= i <= |seqIds|
        invariant seqId[..] == old(seqId[..])[n := seqIds[..i] + row[i..]]
      {
        assert (seqIds[..i] + row[i..])[i := seqIds[i]] == seqIds[..i + 1] + row[i + 1..];
        seqId[n] := seqId[n][i := seqIds[i]];
        i := i + 1;
      }
      assert seqIds[..i] == seqIds;
    }

    /** The entries after an add are the old ones and the new slot. */
    lemma AddedEntries(before: seq<Entry>, n: nat, e: Entry)
      requires Valid() && nTokens == n + 1 && |before| == n && At(n) == e
      requires forall k :: 0 <= k < n ==> before[k] == At(k)
      ensures Entries() == before + [e]
    {
    }
  }
}

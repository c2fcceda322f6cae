/** Unique identifiers (source/kernel/src/IdType.c): eight groups, each with its own 24-bit sequence. */
module IdType {
  import opened Base

  const GROUP_NUM := 8
  const GROUP_INV: U8 := 0xFF
  const GROUP_UNIT := 0x100_0000     // 1 << ID_SHIFT_AMOUNT_GROUP
  const SEQ_NUM_MAX := 0xFF_FFFF     // ID_INVALID & ID_MASK_SEQ_NUM

  predicate IsValid(id: U32) { id != ID_INVALID && id / GROUP_UNIT < GROUP_NUM }

  function GroupGet(id: U32): U8 { if IsValid(id) then id / GROUP_UNIT else GROUP_INV }

  function SequenceNumberGet(id: U32): U32 { if IsValid(id) then id % GROUP_UNIT else ID_INVALID }

  function MakeId(group: U8, n: nat): U32
    requires group < GROUP_NUM && n <= SEQ_NUM_MAX
  {
    group * GROUP_UNIT + n
  }

  /** The IdPools table. */
  class IdPools {
    const freeId: array<U32>
    const rollover: array<bool>

    ghost predicate Valid()
      reads this, freeId, rollover
    {
      && freeId.Length == rollover.Length == GROUP_NUM
      && forall g :: 0 <= g < GROUP_NUM ==>
           && g * GROUP_UNIT <= freeId[g] <= g * GROUP_UNIT + SEQ_NUM_MAX
           && rollover[g] == (freeId[g] == g * GROUP_UNIT + SEQ_NUM_MAX)
    }

    /** How many identifiers of a group have been handed out. */
    ghost function IssuedTo(group: U8): (n: nat)
      requires Valid() && group < GROUP_NUM
      reads this, freeId, rollover
      ensures n <= SEQ_NUM_MAX
    {
      freeId[group] - group * GROUP_UNIT
    }

    ghost function Issued(): (n: seq<nat>)
      requires Valid()
      reads this, freeId, rollover
      ensures |n| == GROUP_NUM && forall g :: 0 <= g < GROUP_NUM ==> n[g] == IssuedTo(g) <= SEQ_NUM_MAX
    {
      seq(GROUP_NUM, g requires 0 <= g < GROUP_NUM && Valid() reads this, freeId, rollover => IssuedTo(g))
    }

    /** KIdInit. */
    constructor ()
      ensures Valid() && fresh(freeId) && fresh(rollover)
      ensures Issued() == NothingIssued()
    {
      freeId := new U32[GROUP_NUM];
      rollover := new bool[GROUP_NUM];
      new;
      for i := 0 to GROUP_NUM
        invariant forall g :: 0 <= g < i ==> freeId[g] == g * GROUP_UNIT && !rollover[g]
      {
        freeId[i] := i * GROUP_UNIT;
        rollover[i] := false;
      }
    }

    /** KIdRequest. */
    method Request(group: U8) returns (id: U32)
      requires Valid()
      modifies freeId, rollover
      ensures Valid()
      ensures (Issued(), id) == Issue(old(Issued()), group)
    {
      id := ID_INVALID;
      if group < GROUP_NUM {
        if !rollover[group] {
          id := freeId[group];
          freeId[group] := freeId[group] + 1;
          if freeId[group] % GROUP_UNIT == SEQ_NUM_MAX {
            rollover[group] := true;
          }
        }
      }
      assert Issued() == Issue(old(Issued()), group).0;
    }
  }

  // ----- what a request does, on the counts -----

  ghost predicate Counts(n: seq<nat>) {
    |n| == GROUP_NUM && forall g :: 0 <= g < GROUP_NUM ==> n[g] <= SEQ_NUM_MAX
  }

  function NothingIssued(): (n: seq<nat>)
    ensures Counts(n)
  {
    [0, 0, 0, 0, 0, 0, 0, 0]
  }

  function Issue(n: seq<nat>, group: U8): (r: (seq<nat>, U32))
    requires Counts(n)
    ensures Counts(r.0)
  {
    if group < GROUP_NUM && n[group] < SEQ_NUM_MAX
    then (n[group := n[group] + 1], MakeId(group, n[group]))
    else (n, ID_INVALID)
  }

  // ----- all runs -----

  /** The identifiers answered to a sequence of requests made after KIdInit, and the counts left behind. */
  function Answers(requests: seq<U8>): (r: (seq<nat>, seq<U32>))
    ensures Counts(r.0) && |r.1| == |requests|
    decreases |requests|
  {
    if requests == [] then (NothingIssued(), [])
    else
      var (n, ids) := Answers(requests[..|requests| - 1]);
      var (n', id) := Issue(n, requests[|requests| - 1]);
      (n', ids + [id])
  }

  /** Earlier requests for the group of request k. */
  function Earlier(requests: seq<U8>, k: nat): nat
    requires k < |requests|
  {
    multiset(requests[..k])[requests[k]]
  }

  lemma {:induction false} CountsFollowRequests(requests: seq<U8>, g: U8)
    requires g < GROUP_NUM
    ensures Answers(requests).0[g] ==
            if multiset(requests)[g] < SEQ_NUM_MAX then multiset(requests)[g] else SEQ_NUM_MAX
    decreases |requests|
  {
    if requests != [] {
      var last := |requests| - 1;
      assert requests == requests[..last] + [requests[last]];
      CountsFollowRequests(requests[..last], g);
    }
  }

  /** Each request is answered by its group and the number of earlier requests for that group, the first 2^24 - 1
      times; after that by ID_INVALID for ever. */
  lemma {:induction false} AnswerIsCount(requests: seq<U8>, k: nat)
    requires k < |requests|
    ensures Answers(requests).1[k] ==
            if requests[k] < GROUP_NUM && Earlier(requests, k) < SEQ_NUM_MAX
            then MakeId(requests[k], Earlier(requests, k)) else ID_INVALID
    decreases |requests|
  {
    var last := |requests| - 1;
    if k < last {
      AnswerIsCount(requests[..last], k);
      assert requests[..last][..k] == requests[..k];
    } else if requests[k] < GROUP_NUM {
      CountsFollowRequests(requests[..last], requests[k]);
    }
  }

  /** An identifier tells its group and its place in the group's sequence. */
  lemma Decodes(group: U8, n: nat)
    requires group < GROUP_NUM && n < SEQ_NUM_MAX
    ensures IsValid(MakeId(group, n))
    ensures GroupGet(MakeId(group, n)) == group && SequenceNumberGet(MakeId(group, n)) == n
  {}

  /** Of two requests for a group, the later has more before it. */
  lemma EarlierGrows(requests: seq<U8>, i: nat, k: nat)
    requires i < k < |requests| && requests[i] == requests[k]
    ensures Earlier(requests, i) < Earlier(requests, k)
  {
    assert requests[..k] == requests[..i] + [requests[i]] + requests[i + 1..k];
  }

  /** No identifier is handed out twice, over all groups and any run. */
  lemma NeverTwice(requests: seq<U8>, i: nat, k: nat)
    requires i < k < |requests|
    ensures Answers(requests).1[i] == Answers(requests).1[k] ==> Answers(requests).1[i] == ID_INVALID
  {
    AnswerIsCount(requests, i);
    AnswerIsCount(requests, k);
    if Answers(requests).1[i] != ID_INVALID && Answers(requests).1[k] != ID_INVALID {
      Decodes(requests[i], Earlier(requests, i));
      Decodes(requests[k], Earlier(requests, k));
      if requests[i] == requests[k] {
        EarlierGrows(requests, i, k);
      }
    }
  }
}

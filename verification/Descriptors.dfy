/** The move-only descriptor owner of `src/core/unique_file_descriptor.cpp`. */
module Descriptors {

  /** The kernel's side: what is open, and every close so far. */
  class DescriptorTable {
    var open: set<int>
    var closes: multiset<int>

    constructor ()
      ensures open == {} && closes == multiset{}
    {
      open, closes := {}, multiset{};
    }

    /** `close(2)`: the descriptor is gone, whatever the call reports. */
    method Close(fd: int) returns (ok: bool)
      modifies this
      ensures open == old(open) - {fd} && closes == old(closes) + multiset{fd}
    {
      open, closes := open - {fd}, closes + multiset{fd};
      ok := *;
    }
  }

  class UniqueFileDescriptor {
    var descriptor: int

    predicate Valid()
      reads this
    {
      descriptor >= 0
    }

    constructor (descriptor: int)
      ensures this.descriptor == descriptor
    {
      this.descriptor := descriptor;
    }

    /** The move constructor. */
    constructor Move(other: UniqueFileDescriptor)
      modifies other
      ensures descriptor == old(other.descriptor) && other.descriptor == -1
    {
      descriptor := other.descriptor;
      new;
      other.descriptor := -1;
    }

    method Destroy(table: DescriptorTable)
      modifies this, table
      ensures descriptor == -1
      ensures if old(Valid()) then table.open == old(table.open) - {old(descriptor)}
                                   && table.closes == old(table.closes) + multiset{old(descriptor)}
              else table.open == old(table.open) && table.closes == old(table.closes)
    {
      if Valid() {
        var _ := table.Close(descriptor);
      }
      descriptor := -1;
    }

    /** Move assignment. */
    method Assign(other: UniqueFileDescriptor, table: DescriptorTable)
      modifies this, other, table
      ensures this == other ==> descriptor == old(descriptor) && table.open == old(table.open) && table.closes == old(table.closes)
      ensures this != other ==>
                && descriptor == old(other.descriptor) && other.descriptor == -1
                && if old(Valid()) then table.open == old(table.open) - {old(descriptor)}
                                        && table.closes == old(table.closes) + multiset{old(descriptor)}
                   else table.open == old(table.open) && table.closes == old(table.closes)
    {
      if this == other {
        return;
      }
      if Valid() {
        var _ := table.Close(descriptor);
      }
      descriptor := other.descriptor;
      other.descriptor := -1;
    }

    /** An explicit close, for callers who must report a failure: it also lets go of the descriptor. */
    method Close(table: DescriptorTable) returns (ok: bool)
      modifies this, table
      ensures descriptor == if old(Valid()) then -1 else old(descriptor)
      ensures !old(Valid()) ==> ok && table.open == old(table.open) && table.closes == old(table.closes)
      ensures old(Valid()) ==> table.open == old(table.open) - {old(descriptor)}
                               && table.closes == old(table.closes) + multiset{old(descriptor)}
    {
      if !Valid() {
        return true;
      }
      var fd := descriptor;
      descriptor := -1;
      ok := table.Close(fd);
    }
  }

  // ----- Any use of any number of owners ---------------------------------------------------

  /** The owners' fields, what is open, what was closed, and the next open file; a destroyed owner stays at -1. */
  datatype Pool = Pool(owners: seq<int>, open: set<int>, closes: multiset<int>, next: nat)

  /** Opening into a new owner, moving out into a new owner, move assignment, and closing or destroying. */
  datatype Use = Open | MoveOut(from: nat) | Assign(to: nat, from: nat) | LetGo(owner: nat)

  predicate Possible(p: Pool, u: Use) {
    match u
    case Open => true
    case MoveOut(from) => from < |p.owners|
    case Assign(to, from) => to < |p.owners| && from < |p.owners|
    case LetGo(owner) => owner < |p.owners|
  }

  function Closed(p: Pool, fd: int): Pool {
    if fd >= 0 then p.(open := p.open - {fd}, closes := p.closes + multiset{fd}) else p
  }

  /** The effects stated by the members of `UniqueFileDescriptor`. */
  function After(p: Pool, u: Use): Pool
    requires Possible(p, u)
  {
    match u
    case Open => p.(owners := p.owners + [p.next], open := p.open + {p.next}, next := p.next + 1)
    case MoveOut(from) => p.(owners := p.owners[from := -1] + [p.owners[from]])
    case Assign(to, from) =>
      if to == from then p else Closed(p, p.owners[to]).(owners := p.owners[to := p.owners[from]][from := -1])
    case LetGo(owner) => Closed(p, p.owners[owner]).(owners := p.owners[owner := -1])
  }

  predicate IsRun(uses: seq<Use>)
    decreases |uses|, 0
  {
    uses == [] || (IsRun(uses[..|uses| - 1]) && Possible(AfterAll(uses[..|uses| - 1]), uses[|uses| - 1]))
  }

  function AfterAll(uses: seq<Use>): Pool
    requires IsRun(uses)
    decreases |uses|, 1
  {
    if uses == [] then Pool([], {}, multiset{}, 0)
    else After(AfterAll(uses[..|uses| - 1]), uses[|uses| - 1])
  }

  /** Every open file has exactly one owner, every owner's file is open, and every file that was opened is open or was closed once. */
  ghost predicate Owned(p: Pool) {
    && (forall k :: 0 <= k < |p.owners| && p.owners[k] >= 0 ==> p.owners[k] in p.open)
    && (forall j, k :: 0 <= j < k < |p.owners| && p.owners[j] >= 0 ==> p.owners[j] != p.owners[k])
    && (forall fd :: fd in p.open ==> fd in p.owners)
    && (forall fd :: fd in p.open ==> 0 <= fd < p.next)
    && (forall fd :: p.closes[fd] == if 0 <= fd < p.next && fd !in p.open then 1 else 0)
  }

  lemma OwnedAfterLetGo(p: Pool, owner: nat)
    requires Owned(p) && owner < |p.owners|
    ensures Owned(After(p, LetGo(owner)))
  {
    var q := After(p, LetGo(owner));
    assert forall k :: 0 <= k < |p.owners| && k != owner ==> q.owners[k] == p.owners[k];
    forall fd | fd in q.open ensures fd in q.owners {
      var k :| 0 <= k < |p.owners| && p.owners[k] == fd;
      assert q.owners[k] == fd;
    }
  }

  /** One owner's file goes to an owner that has none. */
  lemma OwnedAfterTransfer(p: Pool, to: nat, from: nat, q: Pool)
    requires Owned(p) && to < |p.owners| && from < |p.owners| && to != from && p.owners[to] < 0
    requires q == p.(owners := p.owners[to := p.owners[from]][from := -1])
    ensures Owned(q)
  {
    assert q.owners[to] == p.owners[from] && q.owners[from] == -1;
    assert forall k :: 0 <= k < |p.owners| && k != from && k != to ==> q.owners[k] == p.owners[k];
    forall fd | fd in q.open ensures fd in q.owners {
      var k :| 0 <= k < |p.owners| && p.owners[k] == fd;
      assert q.owners[if k == from then to else k] == fd;
    }
  }

  lemma OwnedWithEmpty(p: Pool, q: Pool)
    requires Owned(p) && q == p.(owners := p.owners + [-1])
    ensures Owned(q)
  {
    forall fd | fd in q.open ensures fd in q.owners {
      var k :| 0 <= k < |p.owners| && p.owners[k] == fd;
      assert q.owners[k] == fd;
    }
  }

  lemma OwnedAfterOpen(p: Pool)
    requires Owned(p)
    ensures Owned(After(p, Open))
  {
    var q := After(p, Open);
    assert q.owners[|p.owners|] == p.next;
    forall fd | fd in q.open ensures fd in q.owners {
      if fd != p.next {
        var k :| 0 <= k < |p.owners| && p.owners[k] == fd;
        assert q.owners[k] == fd;
      }
    }
  }

  lemma OwnedKept(p: Pool, u: Use)
    requires Owned(p) && Possible(p, u)
    ensures Owned(After(p, u))
  {
    match u {
      case Open =>
        OwnedAfterOpen(p);
      case MoveOut(from) =>
        var wider := p.(owners := p.owners + [-1]);
        OwnedWithEmpty(p, wider);
        OwnedAfterTransfer(wider, |p.owners|, from, After(p, u));
      case Assign(to, from) =>
        if to != from {
          OwnedAfterLetGo(p, to);
          OwnedAfterTransfer(After(p, LetGo(to)), to, from, After(p, u));
        }
      case LetGo(owner) =>
        OwnedAfterLetGo(p, owner);
    }
  }

  /** However owners are moved, assigned, closed and destroyed, no file is closed twice and none loses its owner. */
  lemma {:induction false} OwnershipIsConserved(uses: seq<Use>)
    requires IsRun(uses)
    ensures Owned(AfterAll(uses))
  {
    if uses != [] {
      OwnershipIsConserved(uses[..|uses| - 1]);
      OwnedKept(AfterAll(uses[..|uses| - 1]), uses[|uses| - 1]);
    }
  }

  /** Once every owner is empty, each file that was opened has been closed exactly once. */
  lemma NothingLeaks(uses: seq<Use>, fd: nat)
    requires IsRun(uses) && forall k :: 0 <= k < |AfterAll(uses).owners| ==> AfterAll(uses).owners[k] == -1
    requires fd < AfterAll(uses).next
    ensures AfterAll(uses).closes[fd] == 1
  {
    OwnershipIsConserved(uses);
  }
}

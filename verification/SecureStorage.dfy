/** The owner-only storage of `src/core/secure_storage.cpp`, on a file system that can crash at any moment. */
module SecureStorage {
  import opened Text

  type Inode = nat

  /**
   What a crash leaves open. A name that was touched since the last directory sync may come back bound to anything
   it was bound to in between; a file whose last bytes were not synced may come back with any content.
   */
  datatype Disk = Disk(bindings: map<string, set<Option<Inode>>>, settled: map<Inode, string>)

  function Bindings(d: Disk, name: string): set<Option<Inode>> {
    if name in d.bindings then d.bindings[name] else {None}
  }

  predicate Yields(d: Disk, binding: Option<Inode>, o: Option<string>) {
    match binding
    case None => o == None
    case Some(i) => o.Some? && (i in d.settled ==> o.value == d.settled[i])
  }

  /** After a crash the name may be found with this content, or absent. */
  ghost predicate MayRecover(d: Disk, name: string, o: Option<string>) {
    exists b :: b in Bindings(d, name) && Yields(d, b, o)
  }

  /** Whatever a crash at `d` leaves under the name is something a crash at `d0` could have left, or the new content. */
  ghost predicate OldOrNew(d0: Disk, d: Disk, name: string, content: string) {
    forall o :: MayRecover(d, name, o) ==> MayRecover(d0, name, o) || o == Some(content)
  }

  /** At `d`, files other than `i` are as durable as at `d0`. */
  predicate SettledApartFrom(d0: Disk, d: Disk, i: Inode) {
    d.settled - {i} == d0.settled - {i}
  }

  /** Between `d0` and `d` only the file `i`, which no name could yield before, and names other than `name` changed. */
  predicate Preparing(d0: Disk, d: Disk, name: string, i: Inode) {
    Bindings(d, name) == Bindings(d0, name) && Some(i) !in Bindings(d0, name) && SettledApartFrom(d0, d, i)
  }

  lemma PreparingIsOld(d0: Disk, d: Disk, name: string, i: Inode, content: string)
    requires Preparing(d0, d, name, i)
    ensures OldOrNew(d0, d, name, content)
  {
    forall o | MayRecover(d, name, o) ensures MayRecover(d0, name, o) {
      var b :| b in Bindings(d, name) && Yields(d, b, o);
      assert forall j :: j != i ==> (j in d.settled <==> j in d.settled - {i}) && (j in d0.settled <==> j in d0.settled - {i});
      assert Yields(d0, b, o);
    }
  }

  /** Since then the name may also be bound to `i`, whose content is settled. */
  predicate Switching(d0: Disk, d: Disk, name: string, i: Inode, content: string) {
    && Bindings(d, name) <= Bindings(d0, name) + {Some(i)}
    && SettledApartFrom(d0, d, i)
    && i in d.settled && d.settled[i] == content
  }

  lemma SwitchingIsOldOrNew(d0: Disk, d: Disk, name: string, i: Inode, content: string)
    requires Switching(d0, d, name, i, content)
    ensures OldOrNew(d0, d, name, content)
  {
    forall o | MayRecover(d, name, o) ensures MayRecover(d0, name, o) || o == Some(content) {
      var b :| b in Bindings(d, name) && Yields(d, b, o);
      if b != Some(i) {
        assert forall j :: j != i ==> (j in d.settled <==> j in d.settled - {i}) && (j in d0.settled <==> j in d0.settled - {i});
        assert Yields(d0, b, o);
      }
    }
  }

  // ----- System calls ------------------------------------------------------------------------

  datatype CreateOutcome = Created(inode: Inode) | AlreadyExists | CreateFailed(detail: string)

  datatype WriteOutcome = Wrote(count: nat) | Interrupted | NoProgress | WriteFailed(detail: string)

  const READ_BUFFER: nat := 4096

  datatype ReadStep = Bytes(bytes: string) | AtEnd | ReadInterrupted | ReadStepFailed(detail: string)

  /** What a check or a call without other effect said: nothing, or what went wrong. */
  type Complaint = Option<string>

  function Counted(complaint: Complaint): nat {
    if complaint.Some? then 1 else 0
  }

  function Bound(names: map<string, Inode>, name: string): Option<Inode> {
    if name in names then Some(names[name]) else None
  }

  /** Every name leads to a file, and on the disk it may lead there too; inodes are used once. */
  ghost predicate Consistent(names: map<string, Inode>, files: set<Inode>, bindings: map<string, set<Option<Inode>>>, next: Inode) {
    && (forall i :: i in files ==> i < next)
    && (forall name :: name in names ==> names[name] in files)
    && (forall name :: name in names || name in bindings ==> Bound(names, name) in if name in bindings then bindings[name] else {None})
    && (forall name, i :: name in bindings && Some(i) in bindings[name] ==> i < next)
  }

  /**
   One directory. Every outcome is the adversary's choice; `trail` records the disk after each call, so that a
   crash between any two calls is a member of it. Only finitely many signals interrupt a write.
   */
  class FileSystem {
    var names: map<string, Inode>
    var contents: map<Inode, string>
    ghost var bindings: map<string, set<Option<Inode>>>
    ghost var settled: map<Inode, string>
    var nextInode: Inode
    var signals: nat
    ghost var trail: seq<Disk>
    /** How many calls were refused or failed. */
    ghost var failures: nat
    /** The names that an unlink was asked to remove and did not. */
    ghost var refusedUnlinks: seq<string>
    /** The files found private since they were opened last, and those given mode 600 since then. */
    ghost var vetted: set<Inode>
    ghost var moded: set<Inode>
    /** How often the directory was found private and opened, and the files closed without complaint. */
    ghost var directoryChecks: nat
    ghost var closings: seq<Inode>

    ghost function OnDisk(): Disk
      reads this`bindings, this`settled
    {
      Disk(bindings, settled)
    }

    ghost function Now(): View
      reads this`names, this`contents, this`bindings, this`settled, this`trail, this`refusedUnlinks
    {
      View(names, contents, OnDisk(), trail, refusedUnlinks)
    }

    /** What a reader of the name finds now. */
    function Lookup(name: string): Option<string>
      reads this`names, this`contents
    {
      if name in names && names[name] in contents then Some(contents[names[name]]) else None
    }

    function BindingOf(name: string): Option<Inode>
      reads this`names
    {
      if name in names then Some(names[name]) else None
    }

    ghost predicate Valid()
      reads this`names, this`contents, this`bindings, this`nextInode
    {
      Consistent(names, contents.Keys, bindings, nextInode)
    }

    /** `private_directory`, and opening the directory. */
    method CheckDirectory() returns (complaint: Complaint)
      modifies this`failures, this`directoryChecks
      ensures failures == old(failures) + Counted(complaint)
      ensures directoryChecks == old(directoryChecks) + 1 - Counted(complaint)
    {
      complaint := *;
      failures := failures + Counted(complaint);
      directoryChecks := directoryChecks + 1 - Counted(complaint);
    }

    /** Opens a file that exists; it is not yet known to be private. */
    method OpenExisting(name: string) returns (complaint: Complaint, inode: Inode)
      requires name in names
      modifies this`failures, this`vetted, this`moded
      ensures inode == names[name] && failures == old(failures) + Counted(complaint)
      ensures vetted == old(vetted) - {inode} && moded == old(moded) - {inode}
    {
      complaint := *;
      inode := names[name];
      failures := failures + Counted(complaint);
      vetted, moded := vetted - {inode}, moded - {inode};
    }

    /** `private_regular_file`: type, owner and link count. */
    method CheckPrivate(inode: Inode) returns (complaint: Complaint)
      modifies this`failures, this`vetted
      ensures failures == old(failures) + Counted(complaint)
      ensures vetted == if complaint.Some? then old(vetted) else old(vetted) + {inode}
    {
      complaint := *;
      failures := failures + Counted(complaint);
      vetted := if complaint.Some? then vetted else vetted + {inode};
    }

    /** `fchmod` to mode 600. */
    method SetMode(inode: Inode) returns (complaint: Complaint)
      modifies this`failures, this`moded
      ensures failures == old(failures) + Counted(complaint)
      ensures moded == if complaint.Some? then old(moded) else old(moded) + {inode}
    {
      complaint := *;
      failures := failures + Counted(complaint);
      moded := if complaint.Some? then moded else moded + {inode};
    }

    method Close(inode: Inode) returns (complaint: Complaint)
      modifies this`failures, this`closings
      ensures failures == old(failures) + Counted(complaint)
      ensures closings == if complaint.Some? then old(closings) else old(closings) + [inode]
    {
      complaint := *;
      failures := failures + Counted(complaint);
      closings := if complaint.Some? then closings else closings + [inode];
    }

    /** One read of a file that was found private: some of the bytes from there on, or none and why. */
    method Read(inode: Inode, offset: nat) returns (o: ReadStep)
      requires inode in contents && inode in vetted && offset <= |contents[inode]|
      modifies this`failures, this`signals
      ensures failures == old(failures) + if o.ReadStepFailed? then 1 else 0
      ensures if o.ReadInterrupted? then signals < old(signals) else signals == old(signals)
      ensures o.AtEnd? ==> offset == |contents[inode]|
      ensures o.Bytes? ==> && 1 <= |o.bytes| <= READ_BUFFER && offset + |o.bytes| <= |contents[inode]|
                           && o.bytes == contents[inode][offset..offset + |o.bytes|]
    {
      o := *;
      var rest := |contents[inode]| - offset;
      if o.ReadInterrupted? && signals > 0 {
        signals := signals - 1;
      } else if o.ReadStepFailed? {
        failures := failures + 1;
      } else if rest == 0 {
        o := AtEnd;
      } else {
        var count :| 1 <= count <= READ_BUFFER && count <= rest;
        o := Bytes(contents[inode][offset..offset + count]);
      }
    }

    method BindNew(name: string) returns (inode: Inode)
      requires Valid() && name !in names
      modifies this`nextInode, this`names, this`bindings, this`contents, this`settled, this`vetted, this`moded
      ensures vetted == old(vetted) - {inode} && moded == old(moded) - {inode}
      ensures Valid() && inode !in old(contents) && forall n :: Some(inode) !in Bindings(old(OnDisk()), n)
      ensures names == old(names)[name := inode] && contents == old(contents)[inode := ""]
      ensures bindings == old(bindings)[name := old(Bindings(OnDisk(), name)) + {Some(inode)}]
      ensures settled == old(settled) - {inode}
    {
      inode := nextInode;
      nextInode := nextInode + 1;
      bindings := bindings[name := Bindings(OnDisk(), name) + {Some(inode)}];
      names := names[name := inode];
      contents := contents[inode := ""];
      settled := settled - {inode};
      vetted, moded := vetted - {inode}, moded - {inode};
    }

    method CreateExclusive(name: string) returns (o: CreateOutcome)
      requires Valid()
      modifies this`nextInode, this`names, this`bindings, this`contents, this`settled, this`failures, this`trail
      modifies this`vetted, this`moded
      ensures Valid() && signals == old(signals)
      ensures failures == old(failures) + if o.CreateFailed? then 1 else 0
      ensures o.AlreadyExists? ==> name in names
      ensures trail == old(trail) + [OnDisk()]
      ensures !o.Created? ==> names == old(names) && contents == old(contents) && OnDisk() == old(OnDisk())
      ensures o.Created? ==>
                && name !in old(names) && o.inode !in old(contents)
                && names == old(names)[name := o.inode] && contents == old(contents)[o.inode := ""]
                && bindings == old(bindings)[name := old(Bindings(OnDisk(), name)) + {Some(o.inode)}]
                && settled == old(settled) - {o.inode} && o.inode !in vetted && o.inode !in moded
                && (forall n :: Some(o.inode) !in Bindings(old(OnDisk()), n))
    {
      var refused: Complaint := *;
      if name in names {
        o := if refused.Some? then CreateFailed(refused.value) else AlreadyExists;
      } else if refused.Some? {
        o := CreateFailed(refused.value);
      } else {
        var inode := BindNew(name);
        o := Created(inode);
      }
      failures := failures + if o.CreateFailed? then 1 else 0;
      trail := trail + [OnDisk()];
    }

    /** One write to the end of an open file: some of the bytes, or none and why. */
    method Write(inode: Inode, bytes: string) returns (o: WriteOutcome)
      requires Valid() && inode in contents && bytes != "" && inode in vetted && inode in moded
      modifies this`contents, this`settled, this`signals, this`failures, this`trail
      ensures Valid() && names == old(names) && bindings == old(bindings) && nextInode == old(nextInode)
      ensures trail == old(trail) + [OnDisk()]
      ensures settled == old(settled) - {inode}
      ensures o.Wrote? ==> 1 <= o.count <= |bytes| && signals == old(signals)
                           && contents == old(contents)[inode := old(contents)[inode] + bytes[..o.count]]
      ensures !o.Wrote? ==> contents == old(contents) && signals <= old(signals)
      ensures o.Interrupted? ==> signals < old(signals)
      ensures failures == old(failures) + if o.NoProgress? || o.WriteFailed? then 1 else 0
    {
      o := *;
      settled := settled - {inode};
      if o.Interrupted? && signals == 0 {
        o := NoProgress;
      }
      if o.Wrote? && (o.count < 1 || o.count > |bytes|) {
        o := Wrote(|bytes|);
      }
      if o.Wrote? {
        contents := contents[inode := contents[inode] + bytes[..o.count]];
      } else if o.Interrupted? {
        signals := signals - 1;
      }
      failures := failures + if o.NoProgress? || o.WriteFailed? then 1 else 0;
      trail := trail + [OnDisk()];
    }

    method Truncate(inode: Inode) returns (complaint: Complaint)
      requires Valid() && inode in contents && inode in vetted && inode in moded
      modifies this`contents, this`settled, this`failures, this`trail
      ensures Valid() && names == old(names) && bindings == old(bindings) && signals == old(signals)
      ensures trail == old(trail) + [OnDisk()]
      ensures failures == old(failures) + Counted(complaint)
      ensures settled == old(settled) - {inode}
      ensures contents == if complaint.None? then old(contents)[inode := ""] else old(contents)
    {
      complaint := *;
      settled := settled - {inode};
      if complaint.None? {
        contents := contents[inode := ""];
      }
      failures := failures + Counted(complaint);
      trail := trail + [OnDisk()];
    }

    /** `fsync` on a file: on success its content survives. */
    method SyncFile(inode: Inode) returns (complaint: Complaint)
      requires Valid() && inode in contents
      modifies this`settled, this`failures, this`trail
      ensures Valid() && names == old(names) && contents == old(contents) && bindings == old(bindings) && signals == old(signals)
      ensures trail == old(trail) + [OnDisk()]
      ensures failures == old(failures) + Counted(complaint)
      ensures settled == if complaint.None? then old(settled)[inode := contents[inode]] else old(settled) - {inode}
    {
      complaint := *;
      settled := if complaint.None? then settled[inode := contents[inode]] else settled - {inode};
      failures := failures + Counted(complaint);
      trail := trail + [OnDisk()];
    }

    method Move(from: string, to: string)
      requires Valid() && from in names && from != to
      modifies this`names, this`bindings
      ensures Valid() && names == (old(names) - {from})[to := old(names)[from]]
      ensures Bindings(OnDisk(), to) == old(Bindings(OnDisk(), to)) + {Some(old(names)[from])}
      ensures forall n :: n != from && n != to ==> Bindings(OnDisk(), n) == old(Bindings(OnDisk(), n))
    {
      var inode := names[from];
      Unbind(from);
      bindings := bindings[to := Bindings(OnDisk(), to) + {Some(inode)}];
      names := names[to := inode];
    }

    method Unbind(name: string)
      requires Valid()
      modifies this`names, this`bindings
      ensures Valid() && names == old(names) - {name}
      ensures forall n :: n != name ==> Bindings(OnDisk(), n) == old(Bindings(OnDisk(), n))
    {
      bindings := bindings[name := Bindings(OnDisk(), name) + {None}];
      names := names - {name};
    }

    /** Atomic for everyone who looks now; durable only after a directory sync. */
    method Rename(from: string, to: string) returns (complaint: Complaint)
      requires Valid() && from in names && from != to
      modifies this`names, this`bindings, this`failures, this`trail
      ensures Valid() && contents == old(contents) && settled == old(settled) && signals == old(signals)
      ensures trail == old(trail) + [OnDisk()]
      ensures failures == old(failures) + Counted(complaint)
      ensures complaint.Some? ==> names == old(names) && bindings == old(bindings)
      ensures complaint.None? ==>
                && names == (old(names) - {from})[to := old(names)[from]]
                && Bindings(OnDisk(), to) == old(Bindings(OnDisk(), to)) + {Some(old(names)[from])}
                && (forall n :: n != from && n != to ==> Bindings(OnDisk(), n) == old(Bindings(OnDisk(), n)))
    {
      complaint := *;
      if complaint.None? {
        Move(from, to);
      }
      failures := failures + Counted(complaint);
      trail := trail + [OnDisk()];
    }

    /** `fsync` on the directory: on success every name is certain. */
    method SyncDirectory() returns (complaint: Complaint)
      requires Valid()
      modifies this`bindings, this`failures, this`trail
      ensures Valid() && names == old(names) && contents == old(contents) && settled == old(settled) && signals == old(signals)
      ensures trail == old(trail) + [OnDisk()]
      ensures failures == old(failures) + Counted(complaint)
      ensures complaint.Some? ==> bindings == old(bindings)
      ensures complaint.None? ==> forall n :: Bindings(OnDisk(), n) == {BindingOf(n)}
    {
      complaint := *;
      if complaint.None? {
        bindings := map name | name in names :: {Some(names[name])};
      }
      failures := failures + Counted(complaint);
      trail := trail + [OnDisk()];
    }

    method Unlink(name: string) returns (complaint: Complaint)
      requires Valid()
      modifies this`names, this`bindings, this`failures, this`trail, this`refusedUnlinks
      ensures Valid() && contents == old(contents) && settled == old(settled) && signals == old(signals)
      ensures trail == old(trail) + [OnDisk()]
      ensures failures == old(failures) + Counted(complaint)
      ensures refusedUnlinks == if complaint.Some? && name in old(names) then old(refusedUnlinks) + [name] else old(refusedUnlinks)
      ensures names == if complaint.None? then old(names) - {name} else old(names)
      ensures forall n :: n != name ==> Bindings(OnDisk(), n) == old(Bindings(OnDisk(), n))
      ensures name !in old(names) ==> complaint.Some? && bindings == old(bindings)
    {
      complaint := *;
      if name !in names {
        complaint := Some("No such file or directory");
      }
      match complaint {
        case Some(_) =>
          refusedUnlinks := if name in names then refusedUnlinks + [name] else refusedUnlinks;
        case None =>
          Unbind(name);
      }
      failures := failures + Counted(complaint);
      trail := trail + [OnDisk()];
    }
  }

  // ----- Writing a file -------------------------------------------------------------------------

  /** Since the trail was `from` long, no name changed and no file other than `i` became more or less durable. */
  ghost predicate TouchesOnly(trail: seq<Disk>, from: nat, d0: Disk, i: Inode) {
    forall k :: from <= k < |trail| ==> trail[k].bindings == d0.bindings && SettledApartFrom(d0, trail[k], i)
  }

  method WriteAll(fs: FileSystem, inode: Inode, content: string) returns (complaint: Complaint, written: nat)
    requires fs.Valid() && inode in fs.contents && inode in fs.vetted && inode in fs.moded
    modifies fs`contents, fs`settled, fs`signals, fs`failures, fs`trail
    ensures fs.Valid() && fs.names == old(fs.names) && fs.bindings == old(fs.bindings)
    ensures written <= |content| && (complaint.None? ==> written == |content|)
    ensures fs.failures == old(fs.failures) + Counted(complaint)
    ensures fs.contents - {inode} == old(fs.contents) - {inode}
    ensures inode in fs.contents && fs.contents[inode] == old(fs.contents)[inode] + content[..written]
    ensures SettledApartFrom(old(fs.OnDisk()), fs.OnDisk(), inode)
    ensures old(fs.trail) <= fs.trail && TouchesOnly(fs.trail, |old(fs.trail)|, old(fs.OnDisk()), inode)
  {
    written := 0;
    assert content[..0] == "";
    while written < |content|
      invariant written <= |content| && fs.failures == old(fs.failures)
      invariant fs.Valid() && fs.names == old(fs.names) && fs.bindings == old(fs.bindings)
      invariant fs.contents - {inode} == old(fs.contents) - {inode}
      invariant inode in fs.contents && fs.contents[inode] == old(fs.contents)[inode] + content[..written]
      invariant SettledApartFrom(old(fs.OnDisk()), fs.OnDisk(), inode)
      invariant old(fs.trail) <= fs.trail && TouchesOnly(fs.trail, |old(fs.trail)|, old(fs.OnDisk()), inode)
      decreases |content| - written, fs.signals
    {
      var outcome := fs.Write(inode, content[written..]);
      match outcome {
        case Wrote(count) =>
          assert content[..written] + content[written..][..count] == content[..written + count];
          written := written + count;
        case Interrupted =>
        case NoProgress =>
          return Some("storage write made no progress"), written;
        case WriteFailed(detail) =>
          return Some(detail), written;
      }
    }
    return None, written;
  }

  /** The file must be private, and becomes readable and writable for its owner alone. */
  method Vet(fs: FileSystem, inode: Inode) returns (complaint: Complaint)
    modifies fs`failures, fs`vetted, fs`moded
    ensures fs.failures == old(fs.failures) + Counted(complaint)
    ensures complaint.None? ==> inode in fs.vetted && inode in fs.moded
  {
    complaint := fs.CheckPrivate(inode);
    if complaint.Some? {
      return;
    }
    complaint := fs.SetMode(inode);
  }

  /** Everything is written, synced and closed, or something failed. */
  method WriteSyncClose(fs: FileSystem, inode: Inode, content: string) returns (complaint: Complaint, written: nat)
    requires fs.Valid() && inode in fs.contents && inode in fs.vetted && inode in fs.moded
    modifies fs`contents, fs`settled, fs`signals, fs`failures, fs`trail, fs`closings
    ensures fs.Valid() && fs.failures == old(fs.failures) + Counted(complaint)
    ensures fs.contents - {inode} == old(fs.contents) - {inode} && inode in fs.contents
    ensures written <= |content| && fs.contents[inode] == old(fs.contents)[inode] + content[..written]
    ensures SettledApartFrom(old(fs.OnDisk()), fs.OnDisk(), inode)
    ensures old(fs.trail) <= fs.trail && TouchesOnly(fs.trail, |old(fs.trail)|, old(fs.OnDisk()), inode)
    ensures complaint.None? ==>
              && written == |content| && inode in fs.settled && fs.settled[inode] == fs.contents[inode]
              && fs.closings == old(fs.closings) + [inode]
  {
    complaint, written := WriteAll(fs, inode, content);
    if complaint.Some? {
      return;
    }
    complaint := fs.SyncFile(inode);
    if complaint.Some? {
      return;
    }
    complaint := fs.Close(inode);
  }

  /** The temporary file gets its permissions and its content, is synced and closed. */
  method FillTemporary(fs: FileSystem, inode: Inode, content: string) returns (complaint: Complaint)
    requires fs.Valid() && inode in fs.contents && fs.contents[inode] == ""
    modifies fs`contents, fs`settled, fs`signals, fs`failures, fs`trail, fs`vetted, fs`moded, fs`closings
    ensures fs.Valid() && fs.names == old(fs.names) && fs.bindings == old(fs.bindings)
    ensures fs.contents - {inode} == old(fs.contents) - {inode} && inode in fs.contents
    ensures SettledApartFrom(old(fs.OnDisk()), fs.OnDisk(), inode)
    ensures old(fs.trail) <= fs.trail && TouchesOnly(fs.trail, |old(fs.trail)|, old(fs.OnDisk()), inode)
    ensures complaint.None? ==> inode in fs.vetted && inode in fs.moded && fs.closings == old(fs.closings) + [inode]
    ensures complaint.None? ==> fs.contents[inode] == content && inode in fs.settled && fs.settled[inode] == content
    ensures fs.failures == old(fs.failures) + Counted(complaint)
  {
    complaint := Vet(fs, inode);
    if complaint.Some? {
      return;
    }
    var written;
    complaint, written := WriteSyncClose(fs, inode, content);
    assert content[..|content|] == content && "" + content == content;
  }

  // ----- Replacing a file -------------------------------------------------------------------------

  predicate SafeFilename(filename: string) {
    filename != "" && filename != "." && filename != ".." &&
    '/' !in filename && '\\' !in filename && '\0' !in filename
  }

  function Decimal(n: nat): string {
    if n < 10 then [(48 + n) as char] else Decimal(n / 10) + [(48 + n % 10) as char]
  }

  function DecimalValue(digits: string): int {
    if digits == "" then 0 else DecimalValue(digits[..|digits| - 1]) * 10 + digits[|digits| - 1] as int - 48
  }

  lemma {:induction false} DecimalReadsBack(n: nat)
    ensures DecimalValue(Decimal(n)) == n && forall c :: c in Decimal(n) ==> '0' <= c <= '9'
  {
    if n >= 10 {
      DecimalReadsBack(n / 10);
      assert Decimal(n)[..|Decimal(n)| - 1] == Decimal(n / 10);
    } else {
      assert Decimal(n)[..0] == "";
    }
  }

  const TEMPORARY_ATTEMPTS: nat := 128

  function TemporaryName(filename: string, pid: nat, attempt: nat): (name: string)
    ensures |name| > |filename|
  {
    "." + filename + ".tmp." + Decimal(pid) + "." + Decimal(attempt)
  }

  /** Every attempt tries another name, hidden, fit, and not the target's. */
  lemma TemporaryNamesAreFit(filename: string, pid: nat, a: nat, b: nat)
    requires SafeFilename(filename)
    ensures SafeFilename(TemporaryName(filename, pid, a)) && TemporaryName(filename, pid, a)[0] == '.'
    ensures TemporaryName(filename, pid, a) == TemporaryName(filename, pid, b) ==> a == b
  {
    DecimalReadsBack(pid);
    DecimalReadsBack(a);
    DecimalReadsBack(b);
    var front := "." + filename + ".tmp." + Decimal(pid) + ".";
    assert TemporaryName(filename, pid, a) == front + Decimal(a) && TemporaryName(filename, pid, b) == front + Decimal(b);
    assert TemporaryName(filename, pid, a)[|front|..] == Decimal(a) && TemporaryName(filename, pid, b)[|front|..] == Decimal(b);
  }

  /** What `fstatat` says about the target. */
  datatype TargetStatus = NoTarget | PrivateTarget | UnfitTarget | StatFailed(detail: string)

  /** Every temporary name that will be tried is in use. */
  predicate AllTaken(names: map<string, Inode>, filename: string, pid: nat) {
    forall a :: 0 <= a < 128 ==> TemporaryName(filename, pid, a) in names
  }

  /** Creates a temporary file under a name that was free. */
  method CreateTemporary(fs: FileSystem, filename: string, pid: nat)
    returns (complaint: Complaint, temporary: string, inode: Inode)
    requires fs.Valid()
    modifies fs`nextInode, fs`names, fs`bindings, fs`contents, fs`settled, fs`failures, fs`trail, fs`vetted, fs`moded
    ensures fs.Valid() && old(fs.trail) <= fs.trail
    ensures complaint.None? ==> fs.failures == old(fs.failures) && !AllTaken(old(fs.names), filename, pid)
    ensures complaint.Some? ==> fs.failures > old(fs.failures) || AllTaken(old(fs.names), filename, pid)
    ensures complaint.Some? ==> fs.names == old(fs.names) && fs.contents == old(fs.contents) && fs.OnDisk() == old(fs.OnDisk())
    ensures complaint.Some? ==> forall k :: |old(fs.trail)| <= k < |fs.trail| ==> fs.trail[k] == old(fs.OnDisk())
    ensures complaint.None? ==>
              && temporary != filename && temporary !in old(fs.names)
              && fs.names == old(fs.names)[temporary := inode]
              && fs.contents == old(fs.contents)[inode := ""] && inode !in old(fs.contents)
              && Preparing(old(fs.OnDisk()), fs.OnDisk(), filename, inode)
              && (forall n :: n != temporary ==> Bindings(fs.OnDisk(), n) == Bindings(old(fs.OnDisk()), n))
              && forall k :: |old(fs.trail)| <= k < |fs.trail| ==> Preparing(old(fs.OnDisk()), fs.trail[k], filename, inode)
  {
    var attempt := 0;
    temporary, inode := "", 0;
    while attempt < TEMPORARY_ATTEMPTS
      invariant attempt <= TEMPORARY_ATTEMPTS && fs.failures == old(fs.failures)
      invariant forall a :: 0 <= a < attempt ==> TemporaryName(filename, pid, a) in fs.names
      invariant fs.Valid() && old(fs.trail) <= fs.trail
      invariant fs.names == old(fs.names) && fs.contents == old(fs.contents) && fs.OnDisk() == old(fs.OnDisk())
      invariant forall k :: |old(fs.trail)| <= k < |fs.trail| ==> fs.trail[k] == old(fs.OnDisk())
    {
      temporary := TemporaryName(filename, pid, attempt);
      var outcome := fs.CreateExclusive(temporary);
      match outcome {
        case Created(i) =>
          return None, temporary, i;
        case AlreadyExists =>
          attempt := attempt + 1;
        case CreateFailed(detail) =>
          return Some(detail), temporary, inode;
      }
    }
    return Some("could not allocate private replacement file"), temporary, inode;
  }

  /** Renames the filled temporary over the target and syncs the directory. */
  method Publish(fs: FileSystem, temporary: string, filename: string, content: string, ghost d0: Disk, ghost inode: Inode)
    returns (complaint: Complaint)
    requires fs.Valid() && temporary != filename && temporary in fs.names && fs.names[temporary] == inode
    requires Preparing(d0, fs.OnDisk(), filename, inode)
    requires fs.contents[inode] == content && inode in fs.settled && fs.settled[inode] == content
    modifies fs`names, fs`bindings, fs`failures, fs`trail
    ensures fs.Valid() && old(fs.trail) <= fs.trail && fs.contents == old(fs.contents)
    ensures forall k :: |old(fs.trail)| <= k < |fs.trail| ==> Switching(d0, fs.trail[k], filename, inode, content)
    ensures Switching(d0, fs.OnDisk(), filename, inode, content)
    ensures fs.names == old(fs.names) || fs.names == (old(fs.names) - {temporary})[filename := inode]
    ensures fs.failures == old(fs.failures) + Counted(complaint)
    ensures complaint.None? ==> fs.names == (old(fs.names) - {temporary})[filename := inode]
                                && Bindings(fs.OnDisk(), filename) == {Some(inode)}
  {
    complaint := fs.Rename(temporary, filename);
    if complaint.None? {
      complaint := fs.SyncDirectory();
    }
  }

  /** The file name of a path in a directory other than the root. */
  function TargetName(path: string): Option<string> {
    var after := LastSlash(path, |path|);
    if after.None? || after.value + 1 == |path| || path[..after.value] in {"", "/"} then None
    else if SafeFilename(path[after.value + 1..]) then Some(path[after.value + 1..])
    else None
  }

  /** The name is what stands behind the last slash of the path, if that leaves a directory and a fit name. */
  lemma TargetNameExactly(path: string, n: string)
    ensures TargetName(path) == Some(n) <==>
            && n != "" && n != "." && n != ".." && '/' !in n && '\\' !in n && '\0' !in n
            && exists d: string :: path == d + "/" + n && d != "" && d != "/"
  {
    var after := LastSlash(path, |path|);
    if TargetName(path) == Some(n) {
      assert path == path[..after.value] + "/" + n;
    }
    forall d: string | path == d + "/" + n && d != "" && d != "/" && SafeFilename(n) ensures TargetName(path) == Some(n) {
      assert path[|d|] == '/' && path[|d| + 1..] == n && path[..|d|] == d;
      assert forall k :: |d| < k < |path| ==> path[k] == n[k - |d| - 1];
      LastSlashIs(path, |path|, |d|);
    }
  }

  lemma {:induction false} LastSlashIs(path: string, end: nat, k: nat)
    requires k < end <= |path| && path[k] == '/' && forall j :: k < j < end ==> path[j] != '/'
    ensures LastSlash(path, end) == Some(k)
  {
    if end - 1 > k {
      LastSlashIs(path, end - 1, k);
    }
  }

  function LastSlash(path: string, end: nat): (r: Option<nat>)
    requires end <= |path|
    ensures r.Some? ==> r.value < end && path[r.value] == '/' && '/' !in path[r.value + 1..end]
    ensures r.None? ==> '/' !in path[..end]
  {
    if end == 0 then None else if path[end - 1] == '/' then Some(end - 1) else LastSlash(path, end - 1)
  }

  /** A file system at one moment. */
  datatype View = View(names: map<string, Inode>, contents: map<Inode, string>, disk: Disk, trail: seq<Disk>,
                       refused: seq<string>)

  function LookupIn(v: View, name: string): Option<string> {
    if name in v.names && v.names[name] in v.contents then Some(v.contents[v.names[name]]) else None
  }

  /** Every crash since `v0` leaves the name as it could have been left before, or with the new content. */
  ghost predicate CrashSafe(v0: View, v: View, filename: string, content: string) {
    && v0.trail <= v.trail
    && (forall k :: |v0.trail| <= k < |v.trail| ==> OldOrNew(v0.disk, v.trail[k], filename, content))
    && OldOrNew(v0.disk, v.disk, filename, content)
  }

  /** Apart from the target's own, no name came or went, save one that an unlink was asked to remove and did not. */
  predicate LeavesNoOtherName(v0: View, v: View, filename: string) {
    if v.refused == v0.refused then v.names.Keys - {filename} == v0.names.Keys - {filename}
    else && |v.refused| == |v0.refused| + 1 && v0.refused < v.refused
         && var left := v.refused[|v0.refused|];
         left !in v0.names && v.names.Keys - {filename} == v0.names.Keys + {left} - {filename}
  }

  /** Other names stay, and those of another file than this name's lead to what they led to, and to another file still. */
  predicate OthersKept(v0: View, v: View, name: string) {
    forall n :: n in v0.names && n != name ==>
      && n in v.names && v.names[n] == v0.names[n]
      && (Bound(v0.names, n) != Bound(v0.names, name) ==>
            LookupIn(v, n) == LookupIn(v0, n) && Bound(v.names, n) != Bound(v.names, name))
  }

  /** What a replacement does between `v0` and `v`, whatever the outcome of its calls. */
  ghost predicate Replaced(v0: View, v: View, filename: string, content: string, complaint: Complaint) {
    && CrashSafe(v0, v, filename, content)
    && (complaint.None? ==> LookupIn(v, filename) == Some(content)
                            && (forall o :: MayRecover(v.disk, filename, o) ==> o == Some(content)))
    && (complaint.Some? ==> LookupIn(v, filename) == LookupIn(v0, filename) || LookupIn(v, filename) == Some(content))
    && LeavesNoOtherName(v0, v, filename) && (complaint.None? ==> v.refused == v0.refused)
    && (forall n :: n in v0.names && n != filename ==> LookupIn(v, n) == LookupIn(v0, n))
    && OthersKept(v0, v, filename)
  }

  /** The temporary file exists beside everything that was there before. */
  ghost predicate Beside(v0: View, v: View, temporary: string, inode: Inode) {
    && temporary !in v0.names && inode !in v0.contents
    && v.names == v0.names[temporary := inode]
    && v.contents - {inode} == v0.contents && inode in v.contents
  }

  /** The target has been switched to the temporary's file. */
  ghost predicate Switched(v0: View, v: View, filename: string, temporary: string, inode: Inode) {
    && temporary !in v0.names && inode !in v0.contents && temporary != filename
    && v.names == (v0.names[temporary := inode] - {temporary})[filename := inode]
    && v.contents - {inode} == v0.contents && inode in v.contents
  }

  predicate WellLinked(v: View) {
    forall n :: n in v.names ==> v.names[n] in v.contents
  }

  lemma BesideLooksTheSame(v0: View, v: View, temporary: string, inode: Inode, n: string)
    requires WellLinked(v0) && Beside(v0, v, temporary, inode) && n != temporary
    ensures LookupIn(v, n) == LookupIn(v0, n)
  {
    assert n in v0.names ==> v0.names[n] in v.contents - {inode};
  }

  lemma SwitchedLooksTheSame(v0: View, v: View, filename: string, temporary: string, inode: Inode, n: string)
    requires WellLinked(v0) && Switched(v0, v, filename, temporary, inode) && n in v0.names && n != filename
    ensures LookupIn(v, n) == LookupIn(v0, n)
  {
    assert v0.names[n] in v.contents - {inode};
  }

  /** A failure before the switch, whose temporary file could be removed or not. */
  lemma FailedBeside(v0: View, v: View, v': View, filename: string, temporary: string, inode: Inode, content: string,
                     complaint: Complaint)
    requires WellLinked(v0) && Beside(v0, v, temporary, inode) && complaint.Some? && temporary != filename
    requires v'.contents == v.contents && CrashSafe(v0, v', filename, content)
    requires || (v'.names == v.names - {temporary} && v'.refused == v0.refused)
             || (v'.names == v.names && v'.refused == v0.refused + [temporary])
    ensures Replaced(v0, v', filename, content, complaint)
  {
    forall n | n != temporary ensures LookupIn(v', n) == LookupIn(v0, n) {
      BesideLooksTheSame(v0, v, temporary, inode, n);
    }
  }

  /** The switch happened: a success, or a failure to make it certain, after which there is nothing to remove. */
  lemma DoneSwitched(v0: View, v: View, filename: string, temporary: string, inode: Inode, content: string, complaint: Complaint)
    requires WellLinked(v0) && Switched(v0, v, filename, temporary, inode) && v.contents[inode] == content
    requires CrashSafe(v0, v, filename, content) && v.refused == v0.refused
    requires complaint.None? ==> Bindings(v.disk, filename) == {Some(inode)}
                                 && inode in v.disk.settled && v.disk.settled[inode] == content
    ensures Replaced(v0, v, filename, content, complaint)
  {
    forall n | n in v0.names && n != filename ensures LookupIn(v, n) == LookupIn(v0, n) {
      SwitchedLooksTheSame(v0, v, filename, temporary, inode, n);
    }
  }

  lemma UntouchedIsOld(d0: Disk, name: string, content: string)
    ensures OldOrNew(d0, d0, name, content)
  {
  }

  /** The name leads to a file that was found private, given mode 600, and closed without complaint, as the only one. */
  ghost predicate PublishedPrivately(fs: FileSystem, closed: seq<Inode>, filename: string)
    reads fs`names, fs`vetted, fs`moded, fs`closings
  {
    filename in fs.names && fs.names[filename] in fs.vetted && fs.names[filename] in fs.moded
    && fs.closings == closed + [fs.names[filename]]
  }

  /**
   `replace_private_file_atomically`: with a crash allowed after every call, the name recovers to something it
   could have recovered to before, or to the whole new content; success makes the new content certain.
   */
  method ReplaceAtomically(fs: FileSystem, path: string, content: string, pid: nat, target: TargetStatus)
    returns (complaint: Complaint)
    requires fs.Valid()
    modifies fs
    ensures fs.Valid()
    ensures TargetName(path).None? ==> complaint.Some? && unchanged(fs)
    ensures complaint.None? ==> && fs.failures == old(fs.failures) && (target.NoTarget? || target.PrivateTarget?)
                                && !AllTaken(old(fs.names), TargetName(path).value, pid)
    ensures complaint.None? ==>
              && fs.directoryChecks == old(fs.directoryChecks) + 1
              && PublishedPrivately(fs, old(fs.closings), TargetName(path).value)
    ensures complaint.Some? ==>
              || TargetName(path).None? || target.UnfitTarget? || target.StatFailed?
              || fs.failures > old(fs.failures) || AllTaken(old(fs.names), TargetName(path).value, pid)
    ensures TargetName(path).Some? ==>
              Replaced(old(fs.Now()), fs.Now(), TargetName(path).value, content, complaint)
  {
    var name := TargetName(path);
    if name.None? {
      return Some("storage replacement path is invalid");
    }
    var filename := name.value;
    UntouchedIsOld(fs.OnDisk(), filename, content);
    complaint := fs.CheckDirectory();
    if complaint.Some? {
      return;
    }
    if target.UnfitTarget? {
      return Some("storage file is not a private regular file");
    }
    if target.StatFailed? {
      return Some(target.detail);
    }
    complaint := ReplaceChecked(fs, filename, content, pid);
  }

  /** The temporary file exists, everything so far is safe, and the target has not been touched. */
  ghost predicate Ready(v0: View, v: View, filename: string, temporary: string, inode: Inode, content: string) {
    && CrashSafe(v0, v, filename, content) && Beside(v0, v, temporary, inode)
    && Preparing(v0.disk, v.disk, filename, inode) && temporary != filename
  }

  lemma CreatedIsReady(v0: View, v: View, filename: string, temporary: string, inode: Inode, content: string)
    requires v0.trail <= v.trail && temporary != filename && temporary !in v0.names && inode !in v0.contents
    requires v.names == v0.names[temporary := inode] && v.contents == v0.contents[inode := ""]
    requires Preparing(v0.disk, v.disk, filename, inode)
    requires forall k :: |v0.trail| <= k < |v.trail| ==> Preparing(v0.disk, v.trail[k], filename, inode)
    ensures Ready(v0, v, filename, temporary, inode, content)
  {
    PreparingIsOld(v0.disk, v.disk, filename, inode, content);
    forall k | |v0.trail| <= k < |v.trail| ensures OldOrNew(v0.disk, v.trail[k], filename, content) {
      PreparingIsOld(v0.disk, v.trail[k], filename, inode, content);
    }
  }

  lemma StillPreparing(d0: Disk, d: Disk, d': Disk, filename: string, inode: Inode)
    requires Preparing(d0, d, filename, inode) && d'.bindings == d.bindings && SettledApartFrom(d, d', inode)
    ensures Preparing(d0, d', filename, inode)
  {
  }

  lemma FilledIsReady(v0: View, v: View, v': View, filename: string, temporary: string, inode: Inode, content: string)
    requires Ready(v0, v, filename, temporary, inode, content)
    requires v.trail <= v'.trail && v'.names == v.names && v'.contents - {inode} == v.contents - {inode} && inode in v'.contents
    requires v'.disk.bindings == v.disk.bindings && SettledApartFrom(v.disk, v'.disk, inode)
    requires TouchesOnly(v'.trail, |v.trail|, v.disk, inode)
    ensures Ready(v0, v', filename, temporary, inode, content)
  {
    StillPreparing(v0.disk, v.disk, v'.disk, filename, inode);
    PreparingIsOld(v0.disk, v'.disk, filename, inode, content);
    forall k | |v0.trail| <= k < |v'.trail| ensures OldOrNew(v0.disk, v'.trail[k], filename, content) {
      if k >= |v.trail| {
        StillPreparing(v0.disk, v.disk, v'.trail[k], filename, inode);
        PreparingIsOld(v0.disk, v'.trail[k], filename, inode, content);
      } else {
        assert v'.trail[k] == v.trail[k];
      }
    }
  }

  lemma PublishedIsSafe(v0: View, v: View, v': View, filename: string, inode: Inode, content: string)
    requires CrashSafe(v0, v, filename, content) && v.trail <= v'.trail
    requires Switching(v0.disk, v'.disk, filename, inode, content)
    requires forall k :: |v.trail| <= k < |v'.trail| ==> Switching(v0.disk, v'.trail[k], filename, inode, content)
    ensures CrashSafe(v0, v', filename, content)
  {
    SwitchingIsOldOrNew(v0.disk, v'.disk, filename, inode, content);
    forall k | |v0.trail| <= k < |v'.trail| ensures OldOrNew(v0.disk, v'.trail[k], filename, content) {
      if k >= |v.trail| {
        SwitchingIsOldOrNew(v0.disk, v'.trail[k], filename, inode, content);
      } else {
        assert v'.trail[k] == v.trail[k];
      }
    }
  }

  lemma UnlinkedIsSafe(v0: View, v: View, v': View, filename: string, content: string)
    requires CrashSafe(v0, v, filename, content) && v'.trail == v.trail + [v'.disk]
    requires Bindings(v'.disk, filename) == Bindings(v.disk, filename) && v'.disk.settled == v.disk.settled
    ensures CrashSafe(v0, v', filename, content)
  {
    forall o | MayRecover(v'.disk, filename, o) ensures MayRecover(v.disk, filename, o) {
      var b :| b in Bindings(v'.disk, filename) && Yields(v'.disk, b, o);
      assert Yields(v.disk, b, o);
    }
    forall k | |v0.trail| <= k < |v'.trail| ensures OldOrNew(v0.disk, v'.trail[k], filename, content) {
      if k < |v.trail| {
        assert v'.trail[k] == v.trail[k];
      }
    }
  }

  method ReplaceChecked(fs: FileSystem, filename: string, content: string, pid: nat)
    returns (complaint: Complaint)
    requires fs.Valid()
    modifies fs`names, fs`contents, fs`bindings, fs`settled, fs`nextInode, fs`signals, fs`trail, fs`failures, fs`refusedUnlinks
    modifies fs`vetted, fs`moded, fs`closings
    ensures complaint.None? ==> PublishedPrivately(fs, old(fs.closings), filename)
    ensures fs.Valid() && Replaced(old(fs.Now()), fs.Now(), filename, content, complaint)
    ensures complaint.None? ==> fs.failures == old(fs.failures) && !AllTaken(old(fs.names), filename, pid)
    ensures complaint.Some? ==> fs.failures > old(fs.failures) || AllTaken(old(fs.names), filename, pid)
  {
    ghost var v0 := fs.Now();
    UntouchedIsOld(v0.disk, filename, content);
    var temporary, inode;
    complaint, temporary, inode := CreateTemporary(fs, filename, pid);
    if complaint.Some? {
      return;
    }
    ghost var v1 := fs.Now();
    CreatedIsReady(v0, v1, filename, temporary, inode, content);
    complaint := FillAndPublish(fs, v0, temporary, filename, inode, content);
    CleanUp(fs, v0, temporary, filename, inode, content, complaint);
  }

  /** The new file is filled and, if that went well, takes the target's place. */
  method FillAndPublish(fs: FileSystem, ghost v0: View, temporary: string, filename: string, inode: Inode, content: string)
    returns (complaint: Complaint)
    requires fs.Valid() && WellLinked(v0) && Ready(v0, fs.Now(), filename, temporary, inode, content) && fs.contents[inode] == ""
    modifies fs`names, fs`contents, fs`bindings, fs`settled, fs`nextInode, fs`signals, fs`trail, fs`failures
    modifies fs`vetted, fs`moded, fs`closings
    ensures fs.Valid() && CrashSafe(v0, fs.Now(), filename, content)
    ensures fs.failures == old(fs.failures) + Counted(complaint)
    ensures || (Beside(v0, fs.Now(), temporary, inode) && complaint.Some?)
            || (Switched(v0, fs.Now(), filename, temporary, inode) && fs.contents[inode] == content
                && (complaint.None? ==> && Bindings(fs.OnDisk(), filename) == {Some(inode)}
                                        && inode in fs.settled && fs.settled[inode] == content))
    ensures complaint.None? ==> PublishedPrivately(fs, old(fs.closings), filename)
  {
    ghost var v1 := fs.Now();
    complaint := FillTemporary(fs, inode, content);
    ghost var v2 := fs.Now();
    FilledIsReady(v0, v1, v2, filename, temporary, inode, content);
    if complaint.None? {
      complaint := Publish(fs, temporary, filename, content, v0.disk, inode);
      PublishedIsSafe(v0, v2, fs.Now(), filename, inode, content);
    }
  }

  /** After a failure the temporary name is unlinked; the result of that is not looked at. */
  method CleanUp(fs: FileSystem, ghost v0: View, temporary: string, filename: string, ghost inode: Inode, ghost content: string,
                 complaint: Complaint)
    requires fs.Valid() && WellLinked(v0) && CrashSafe(v0, fs.Now(), filename, content) && temporary != filename
    requires fs.refusedUnlinks == v0.refused
    requires || (Beside(v0, fs.Now(), temporary, inode) && complaint.Some?)
             || (Switched(v0, fs.Now(), filename, temporary, inode) && fs.contents[inode] == content
                 && (complaint.None? ==> && Bindings(fs.OnDisk(), filename) == {Some(inode)}
                                         && inode in fs.settled && fs.settled[inode] == content))
    modifies fs`names, fs`bindings, fs`failures, fs`trail, fs`refusedUnlinks
    ensures complaint.None? ==> fs.names == old(fs.names)
    ensures fs.Valid() && Replaced(v0, fs.Now(), filename, content, complaint)
    ensures fs.failures >= old(fs.failures) && (complaint.None? ==> fs.failures == old(fs.failures))
  {
    ghost var v := fs.Now();
    if complaint.Some? {
      var failure := fs.Unlink(temporary);
      UnlinkedIsSafe(v0, v, fs.Now(), filename, content);
    }
    if Beside(v0, v, temporary, inode) {
      FailedBeside(v0, v, fs.Now(), filename, temporary, inode, content, complaint);
    } else {
      DoneSwitched(v0, fs.Now(), filename, temporary, inode, content, complaint);
    }
  }

  // ----- Appending and reading ------------------------------------------------------------------------

  /** The text a name stands for, nothing if it is absent. */
  function TextOf(o: Option<string>): string {
    if o.Some? then o.value else ""
  }

  method OpenOrCreate(fs: FileSystem, name: string) returns (complaint: Complaint, inode: Inode)
    requires fs.Valid()
    modifies fs`nextInode, fs`names, fs`bindings, fs`contents, fs`settled, fs`failures, fs`trail, fs`vetted, fs`moded
    ensures complaint.None? ==> inode !in fs.vetted && inode !in fs.moded
    ensures fs.Valid()
    ensures fs.failures == old(fs.failures) + Counted(complaint)
    ensures complaint.Some? ==> fs.names == old(fs.names) && fs.contents == old(fs.contents)
    ensures complaint.None? ==>
              && name in fs.names && fs.names[name] == inode && fs.Lookup(name) == Some(TextOf(old(fs.Lookup(name))))
              && (if name in old(fs.names) then inode == old(fs.names)[name] else inode !in old(fs.contents))
              && fs.names == old(fs.names)[name := inode] && fs.contents - {inode} == old(fs.contents) - {inode}
              && Bindings(fs.OnDisk(), name) == Bindings(old(fs.OnDisk()), name) + {Some(inode)}
              && SettledApartFrom(old(fs.OnDisk()), fs.OnDisk(), inode)
  {
    inode := 0;
    if name in fs.names {
      complaint, inode := fs.OpenExisting(name);
      assert Bound(fs.names, name) == Some(inode);
    } else {
      var outcome := fs.CreateExclusive(name);
      match outcome {
        case Created(i) => return None, i;
        case AlreadyExists => assert false;
        case CreateFailed(detail) => return Some(detail), 0;
      }
    }
  }

  /** Whatever a crash leaves bound to the name, it is this text. */
  predicate SurelyHolds(d: Disk, binding: Option<Inode>, text: string) {
    binding.Some? && binding.value in d.settled && d.settled[binding.value] == text
  }

  /** After a file of the name has been synced the text is certain exactly if nothing else the name may be bound to differs. */
  lemma CertainExactly(d0: Disk, d: Disk, name: string, i: Inode, text: string)
    requires Bindings(d, name) == Bindings(d0, name) + {Some(i)} && SettledApartFrom(d0, d, i)
    requires i in d.settled && d.settled[i] == text
    ensures (forall o :: MayRecover(d, name, o) ==> o == Some(text)) <==>
            (forall b :: b in Bindings(d0, name) && b != Some(i) ==> SurelyHolds(d0, b, text))
  {
    forall b | b in Bindings(d0, name) && b != Some(i)
      ensures SurelyHolds(d0, b, text) <==> forall o :: Yields(d, b, o) ==> o == Some(text)
    {
      if b.Some? {
        assert b.value in d.settled <==> b.value in d.settled - {i};
        assert b.value in d0.settled <==> b.value in d0.settled - {i};
        var other := if b.value in d.settled then d.settled[b.value] else text + "?";
        assert Yields(d, b, Some(other));
      } else {
        assert Yields(d, b, None);
      }
    }
    forall o | MayRecover(d, name, o)
      ensures o == Some(text) || exists b :: b in Bindings(d0, name) && b != Some(i) && Yields(d, b, o)
    {
      var b :| b in Bindings(d, name) && Yields(d, b, o);
    }
    forall b, o | b in Bindings(d0, name) && Yields(d, b, o) ensures MayRecover(d, name, o) {
    }
  }

  /** A name that is not there may be missing after a crash too. */
  lemma MissingIsUncertain(fs: FileSystem, name: string, text: string)
    requires fs.Valid() && name !in fs.names
    ensures None in Bindings(fs.OnDisk(), name) && !SurelyHolds(fs.OnDisk(), None, text)
  {
    assert Bound(fs.names, name) == None;
  }

  lemma OneFileChanged(v0: View, v: View, name: string, i: Inode)
    requires WellLinked(v0) && v.names == v0.names[name := i] && v.contents - {i} == v0.contents - {i}
    requires if name in v0.names then i == v0.names[name] else i !in v0.contents
    ensures OthersKept(v0, v, name)
  {
    forall n | n in v0.names && n != name && Bound(v0.names, n) != Bound(v0.names, name)
      ensures LookupIn(v, n) == LookupIn(v0, n) && v0.names[n] != i
    {
      var j := v0.names[n];
      assert j != i;
      assert j in v.contents - {i} && (v.contents - {i})[j] == (v0.contents - {i})[j];
    }
  }

  /**
   `write_private_file`: on success the text, after what was there when appending, is in the file, and its content
   will survive. Its name need not: the directory is not synced, so that after a crash the name is sure to lead to the
   text exactly if it was sure to lead to this file before, or else to the same text; a file just created can be lost.
   A failure may have left any beginning of the text. A file that is another is left alone.
   */
  method WritePrivateFile(fs: FileSystem, name: string, content: string, append: bool) returns (complaint: Complaint, written: nat)
    requires fs.Valid()
    modifies fs
    ensures complaint.None? ==> PublishedPrivately(fs, old(fs.closings), name)
    ensures fs.Valid() && written <= |content|
    ensures fs.failures == old(fs.failures) + Counted(complaint)
    ensures complaint.None? ==>
              var text := (if append then TextOf(old(fs.Lookup(name))) else "") + content;
              && fs.Lookup(name) == Some(text) && written == |content|
              && SurelyHolds(fs.OnDisk(), Bound(fs.names, name), text)
              && fs.names == old(fs.names)[name := fs.names[name]]
              && ((forall o :: MayRecover(fs.OnDisk(), name, o) ==> o == Some(text)) <==>
                  (forall b :: b in Bindings(old(fs.OnDisk()), name) && b != Bound(fs.names, name) ==>
                     SurelyHolds(old(fs.OnDisk()), b, text)))
              && (name !in old(fs.names) ==> MayRecover(fs.OnDisk(), name, None))
    ensures complaint.Some? ==>
              || fs.Lookup(name) == old(fs.Lookup(name))
              || fs.Lookup(name) == Some((if append then TextOf(old(fs.Lookup(name))) else "") + content[..written])
    ensures OthersKept(old(fs.Now()), fs.Now(), name) && fs.names.Keys - {name} == old(fs.names).Keys - {name}
  {
    ghost var d0, v0 := fs.OnDisk(), fs.Now();
    if name !in fs.names {
      MissingIsUncertain(fs, name, "");
    }
    ghost var inode;
    complaint, written, inode := WriteNamed(fs, name, content, append);
    if complaint.None? {
      CertainExactly(d0, fs.OnDisk(), name, inode, fs.contents[inode]);
      assert name !in old(fs.names) ==> Yields(fs.OnDisk(), None, None);
    }
  }

  /** Opens or creates the file, and writes to it. */
  method WriteNamed(fs: FileSystem, name: string, content: string, append: bool)
    returns (complaint: Complaint, written: nat, ghost inode: Inode)
    requires fs.Valid()
    modifies fs`names, fs`contents, fs`bindings, fs`settled, fs`nextInode, fs`signals, fs`trail, fs`failures
    modifies fs`vetted, fs`moded, fs`closings
    ensures complaint.None? ==> PublishedPrivately(fs, old(fs.closings), name)
    ensures fs.Valid() && written <= |content| && fs.failures == old(fs.failures) + Counted(complaint)
    ensures complaint.None? ==>
              && fs.Lookup(name) == Some((if append then TextOf(old(fs.Lookup(name))) else "") + content) && written == |content|
              && fs.names == old(fs.names)[name := inode]
              && inode in fs.contents && inode in fs.settled && fs.settled[inode] == fs.contents[inode]
              && Bindings(fs.OnDisk(), name) == Bindings(old(fs.OnDisk()), name) + {Some(inode)}
              && SettledApartFrom(old(fs.OnDisk()), fs.OnDisk(), inode)
    ensures complaint.Some? ==>
              || fs.Lookup(name) == old(fs.Lookup(name))
              || fs.Lookup(name) == Some((if append then TextOf(old(fs.Lookup(name))) else "") + content[..written])
    ensures OthersKept(old(fs.Now()), fs.Now(), name) && fs.names.Keys - {name} == old(fs.names).Keys - {name}
  {
    written := 0;
    var i;
    complaint, i := OpenOrCreate(fs, name);
    inode := i;
    if complaint.Some? {
      return;
    }
    ghost var was := fs.contents[i];
    assert was == TextOf(old(fs.Lookup(name)));
    complaint, written := WriteOpened(fs, i, content, append);
    assert complaint.Some? && append ==> fs.contents[i] == was + content[..written];
    assert "" + content[..written] == content[..written];
    OneFileChanged(old(fs.Now()), fs.Now(), name, inode);
    assert fs.Lookup(name) == Some(fs.contents[inode]);
  }

  /** The rest, once the file is open. */
  method WriteOpened(fs: FileSystem, inode: Inode, content: string, append: bool) returns (complaint: Complaint, written: nat)
    requires fs.Valid() && inode in fs.contents
    modifies fs`contents, fs`settled, fs`signals, fs`failures, fs`trail, fs`vetted, fs`moded, fs`closings
    ensures fs.Valid() && written <= |content| && inode in fs.contents
    ensures fs.failures == old(fs.failures) + Counted(complaint)
    ensures SettledApartFrom(old(fs.OnDisk()), fs.OnDisk(), inode)
    ensures complaint.None? ==>
              && written == |content| && fs.contents[inode] == (if append then old(fs.contents[inode]) else "") + content
              && inode in fs.settled && fs.settled[inode] == fs.contents[inode]
    ensures complaint.Some? && append ==> fs.contents[inode] == old(fs.contents[inode]) + content[..written]
    ensures complaint.Some? && !append ==>
              fs.contents[inode] == content[..written] || (written == 0 && fs.contents[inode] == old(fs.contents[inode]))
    ensures complaint.None? ==> inode in fs.vetted && inode in fs.moded && fs.closings == old(fs.closings) + [inode]
    ensures fs.contents - {inode} == old(fs.contents) - {inode}
  {
    written := 0;
    assert fs.contents[inode] == fs.contents[inode] + content[..0];
    complaint := Vet(fs, inode);
    if complaint.Some? {
      return;
    }
    if !append {
      complaint := fs.Truncate(inode);
      if complaint.Some? {
        return;
      }
    }
    complaint, written := WriteSyncClose(fs, inode, content);
    assert content[..|content|] == content && "" + content[..written] == content[..written];
  }

  datatype ReadResult = Content(text: string) | Missing | TooLarge | ReadFailed(detail: string)

  /** `read_private_file`: a whole file within the bound, or the reason why not. */
  method ReadPrivateFile(fs: FileSystem, name: string, maximum: nat) returns (r: ReadResult)
    requires fs.Valid()
    modifies fs`signals, fs`failures, fs`vetted, fs`moded, fs`closings
    ensures fs.failures == old(fs.failures) + if r.ReadFailed? then 1 else 0
    ensures r.Content? ==> fs.Lookup(name) == Some(r.text) && |r.text| <= maximum
    ensures r.Content? ==> fs.names[name] in fs.vetted && fs.closings == old(fs.closings) + [fs.names[name]]
    ensures r.Missing? ==> fs.Lookup(name) == None
    ensures r.TooLarge? ==> fs.Lookup(name).Some? && |fs.Lookup(name).value| > maximum
  {
    if name !in fs.names {
      return Missing;
    }
    var complaint, inode := fs.OpenExisting(name);
    if complaint.Some? {
      return ReadFailed(complaint.value);
    }
    complaint := fs.CheckPrivate(inode);
    if complaint.Some? {
      return ReadFailed(complaint.value);
    }
    var content := "";
    ghost var file := fs.contents[inode];
    while true
      invariant fs.failures == old(fs.failures) && fs.closings == old(fs.closings) && inode in fs.vetted
      invariant |content| <= |file| && content == file[..|content|] && |content| <= maximum
      decreases |file| - |content|, fs.signals
    {
      var step := fs.Read(inode, |content|);
      match step {
        case ReadInterrupted =>
        case ReadStepFailed(detail) =>
          return ReadFailed(detail);
        case AtEnd =>
          break;
        case Bytes(bytes) =>
          if |content| + |bytes| > maximum {
            return TooLarge;
          }
          content := content + bytes;
      }
    }
    complaint := fs.Close(inode);
    assert content == file;
    return if complaint.Some? then ReadFailed(complaint.value) else Content(content);
  }
}

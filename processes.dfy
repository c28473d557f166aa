/** Choosing the process to inspect and running the inspection: getPIDList
    (monocanthus.go:22-33), getProcessPid (monocanthus.go:61-74) and the part of
    main that ties them to procMap (monocanthus.go:125-131). The /proc listing,
    the status and maps files and the opening of the mem file are inputs. */
module Processes {
  import opened Base
  import opened Text
  import opened Numbers
  import opened Status
  import opened MemoryMap

  /** An entry of the /proc listing: its name and whether it is a directory. */
  datatype DirEntry = DirEntry(name: Bytes, isDir: bool)

  /** The entry names a process: its name is a decimal int (strconv.Atoi)
      and it is a directory. */
  predicate IsPidEntry(e: DirEntry) {
    ParseInt(e.name, 10).Ok? && e.isDir
  }

  /** What one entry contributes to the pid list: its pid when it is a
      process directory, nothing otherwise. */
  function EntryPids(e: DirEntry): (pids: seq<Int64>)
    ensures |pids| <= 1
  {
    if IsPidEntry(e) then [ParseInt(e.name, 10).value] else []
  }

  /** The contributions of the items of a sequence, in order. */
  function Collect<T>(xs: seq<T>, f: T -> seq<Int64>): seq<Int64>
    decreases |xs|
  {
    if xs == [] then [] else Collect(xs[..|xs| - 1], f) + f(xs[|xs| - 1])
  }

  /** Collecting over two sequences one after the other gives their
      contributions one after the other. */
  lemma {:induction false} CollectAppend<T>(xs: seq<T>, ys: seq<T>, f: T -> seq<Int64>)
    ensures Collect(xs + ys, f) == Collect(xs, f) + Collect(ys, f)
    decreases |ys|
  {
    if ys == [] {
      assert xs + ys == xs;
    } else {
      var ys' := ys[..|ys| - 1];
      CollectAppend(xs, ys', f);
      assert (xs + ys)[..|xs + ys| - 1] == xs + ys';
      assert (xs + ys)[|xs + ys| - 1] == ys[|ys| - 1];
    }
  }

  /** A value is collected exactly when some item contributes it. */
  lemma {:induction false} CollectMembers<T>(xs: seq<T>, f: T -> seq<Int64>, p: Int64)
    ensures p in Collect(xs, f) <==> exists k :: 0 <= k < |xs| && p in f(xs[k])
    decreases |xs|
  {
    if xs != [] {
      var init := xs[..|xs| - 1];
      CollectMembers(init, f, p);
      assert forall k :: 0 <= k < |init| ==> init[k] == xs[k];
    }
  }

  /** When every item contributes at most one value, there are at most as
      many values as items. */
  lemma {:induction false} CollectLength<T>(xs: seq<T>, f: T -> seq<Int64>)
    requires forall x :: |f(x)| <= 1
    ensures |Collect(xs, f)| <= |xs|
    decreases |xs|
  {
    if xs != [] {
      CollectLength(xs[..|xs| - 1], f);
    }
  }

  /** The pids of a listing, in listing order. */
  function PidsOf(es: seq<DirEntry>): (pids: seq<Int64>)
    ensures |pids| <= |es|
  {
    CollectLength(es, EntryPids);
    Collect(es, EntryPids)
  }

  /** Listing two directories' worth of entries one after the other gives
      their pids one after the other. */
  lemma PidsOfAppend(es: seq<DirEntry>, fs: seq<DirEntry>)
    ensures PidsOf(es + fs) == PidsOf(es) + PidsOf(fs)
  {
    CollectAppend(es, fs, EntryPids);
  }

  /** A pid is listed exactly when some entry is a process directory whose
      name parses to it. */
  lemma PidsOfMembers(es: seq<DirEntry>, p: Int64)
    ensures p in PidsOf(es) <==>
              exists k :: 0 <= k < |es| && IsPidEntry(es[k]) && ParseInt(es[k].name, 10).value == p
  {
    CollectMembers(es, EntryPids, p);
    assert forall k :: 0 <= k < |es| ==>
             (p in EntryPids(es[k]) <==> IsPidEntry(es[k]) && ParseInt(es[k].name, 10).value == p);
  }

  /** The entry of a process directory named by the usual decimal writing of
      its pid. */
  lemma PidEntry(pid: Int64)
    ensures IsPidEntry(DirEntry(FormatInt(pid, 10), true))
    ensures PidsOf([DirEntry(FormatInt(pid, 10), true)]) == [pid]
  {
    ParseFormat(pid, 10);
    PidsOfSingle(DirEntry(FormatInt(pid, 10), true));
  }

  /** Files and names that are not decimal do not appear among the pids. */
  lemma NonPidEntryDropped(es: seq<DirEntry>, e: DirEntry, fs: seq<DirEntry>)
    requires !IsPidEntry(e)
    ensures PidsOf(es + [e] + fs) == PidsOf(es) + PidsOf(fs)
  {
    assert PidsOf([e]) == [] by {
      PidsOfSingle(e);
    }
    PidsOfAppend(es, [e]);
    assert PidsOf(es) + [] == PidsOf(es);
    PidsOfAppend(es + [e], fs);
  }

  /** A listing of one entry has that entry's pids. */
  lemma PidsOfSingle(e: DirEntry)
    ensures PidsOf([e]) == EntryPids(e)
  {
    assert [e][..0] == [];
    assert Collect([e], EntryPids) == [] + EntryPids(e);
  }

  /** getPIDList: read /proc (a failure is fatal) and keep, in order, the
      entries that are process directories. */
  method PidList(listing: Option<seq<DirEntry>>) returns (r: Result<seq<Int64>>)
    ensures listing.None? ==> r == Err(ReadFailed)
    ensures listing.Some? ==> r == Ok(PidsOf(listing.value))
  {
    if listing.None? {
      return Err(ReadFailed);
    }
    var files := listing.value;
    var pids: seq<Int64> := [];
    for i := 0 to |files|
      invariant pids == PidsOf(files[..i])
    {
      assert files[..i + 1][..i] == files[..i];
      var n := ParseInt(files[i].name, 10);
      if n.Ok? && files[i].isDir {
        pids := pids + [n.value];
      }
    }
    assert files[..|files|] == files;
    return Ok(pids);
  }

  /** The search of getProcessPid: the status record of each pid in turn (a
      pid without a readable record is fatal), stopping at the first whose
      name is the target; -1 when there is none. */
  function FindPid(pids: seq<Int64>, statusOf: map<Int64, Bytes>, target: Bytes): (r: Result<Int64>)
    ensures r.Ok? ==>
              r.value == -1 ||
              (r.value in pids && r.value in statusOf && ExtractProcessName(statusOf[r.value]) == Ok(target))
    ensures r.Err? ==> r.failure == ReadFailed || r.failure == IndexPanic
  {
    if pids == [] then Ok(-1)
    else if pids[0] !in statusOf then Err(ReadFailed)
    else
      match ExtractProcessName(statusOf[pids[0]])
      case Err(f) => Err(f)
      case Ok(n) => if n == target then Ok(pids[0]) else FindPid(pids[1..], statusOf, target)
  }

  /** The search has gone on past the first `k` pids: each had a status
      record, the record gave a name, and the name was not the target. */
  predicate PassedOverPids(pids: seq<Int64>, statusOf: map<Int64, Bytes>, target: Bytes, k: nat)
    requires k <= |pids|
  {
    forall j :: 0 <= j < k ==>
      pids[j] in statusOf && ExtractProcessName(statusOf[pids[j]]).Ok? &&
      ExtractProcessName(statusOf[pids[j]]).value != target
  }

  /** Where the search stops decides its result: a missing record is fatal,
      a record that makes the name extraction panic panics, and the first
      record named `target` gives its pid. */
  lemma {:induction false} FindPidStops(pids: seq<Int64>, statusOf: map<Int64, Bytes>, target: Bytes, k: nat)
    requires k < |pids| && PassedOverPids(pids, statusOf, target, k)
    ensures pids[k] !in statusOf ==> FindPid(pids, statusOf, target) == Err(ReadFailed)
    ensures pids[k] in statusOf && ExtractProcessName(statusOf[pids[k]]).Err? ==>
              FindPid(pids, statusOf, target) == Err(IndexPanic)
    ensures pids[k] in statusOf && ExtractProcessName(statusOf[pids[k]]) == Ok(target) ==>
              FindPid(pids, statusOf, target) == Ok(pids[k])
    decreases k
  {
    if k > 0 {
      assert PassedOverPids(pids[1..], statusOf, target, k - 1) by {
        assert forall j :: 0 <= j < k - 1 ==> pids[1..][j] == pids[j + 1];
      }
      FindPidStops(pids[1..], statusOf, target, k - 1);
    }
  }

  /** When no record is named `target` (and none is missing or panics), the
      search gives -1. */
  lemma {:induction false} FindPidAbsent(pids: seq<Int64>, statusOf: map<Int64, Bytes>, target: Bytes)
    requires PassedOverPids(pids, statusOf, target, |pids|)
    ensures FindPid(pids, statusOf, target) == Ok(-1)
    decreases |pids|
  {
    if pids != [] {
      assert PassedOverPids(pids[1..], statusOf, target, |pids| - 1) by {
        assert forall j :: 0 <= j < |pids| - 1 ==> pids[1..][j] == pids[j + 1];
      }
      FindPidAbsent(pids[1..], statusOf, target);
    }
  }

  /** A process directory listed under its pid, whose status record starts
      with the line "Name:", a tab and `name`, is the one the search finds,
      wherever it stands in the listing, as long as the processes listed
      before it have status records naming something else. */
  lemma FindsNamedProcess(es: seq<DirEntry>, pid: Int64, fs: seq<DirEntry>,
                          name: Bytes, rest: Bytes, statusOf: map<Int64, Bytes>)
    requires PassedOverPids(PidsOf(es), statusOf, name, |PidsOf(es)|)
    requires Newline !in name
    requires name == [] || (!IsSpace(name[0]) && !IsSpace(name[|name| - 1]))
    requires pid in statusOf && statusOf[pid] == NamePrefix + [Tab] + name + [Newline] + rest
    ensures FindPid(PidsOf(es + [DirEntry(FormatInt(pid, 10), true)] + fs), statusOf, name) == Ok(pid)
  {
    PidsAround(es, pid, fs);
    ExtractNameFirstLine(name, rest);
    FindPidAfter(PidsOf(es), pid, PidsOf(fs), statusOf, name);
  }

  /** A pid whose record names the target is found when the pids before it
      are passed over. */
  lemma FindPidAfter(before: seq<Int64>, pid: Int64, after: seq<Int64>, statusOf: map<Int64, Bytes>, target: Bytes)
    requires PassedOverPids(before, statusOf, target, |before|)
    requires pid in statusOf && ExtractProcessName(statusOf[pid]) == Ok(target)
    ensures FindPid(before + [pid] + after, statusOf, target) == Ok(pid)
  {
    var pids := before + [pid] + after;
    assert pids == before + ([pid] + after);
    PassedOverExtended(before, [pid] + after, statusOf, target);
    FindPidStops(pids, statusOf, target, |before|);
  }

  /** The pids of a listing with a process directory in the middle. */
  lemma PidsAround(es: seq<DirEntry>, pid: Int64, fs: seq<DirEntry>)
    ensures PidsOf(es + [DirEntry(FormatInt(pid, 10), true)] + fs) == PidsOf(es) + [pid] + PidsOf(fs)
  {
    var e := DirEntry(FormatInt(pid, 10), true);
    PidsOfAppend(es + [e], fs);
    PidsOfAppend(es, [e]);
    PidEntry(pid);
  }

  /** Pids passed over stay passed over when more pids follow them. */
  lemma PassedOverExtended(pids: seq<Int64>, more: seq<Int64>, statusOf: map<Int64, Bytes>, target: Bytes)
    requires PassedOverPids(pids, statusOf, target, |pids|)
    ensures PassedOverPids(pids + more, statusOf, target, |pids|)
  {
    assert forall j :: 0 <= j < |pids| ==> (pids + more)[j] == pids[j];
  }

  /** getProcessPid as the loop it is. */
  method ProcessPid(pids: seq<Int64>, statusOf: map<Int64, Bytes>, target: Bytes) returns (r: Result<Int64>)
    ensures r == FindPid(pids, statusOf, target)
  {
    for i := 0 to |pids|
      invariant FindPid(pids[i..], statusOf, target) == FindPid(pids, statusOf, target)
    {
      if pids[i] !in statusOf {
        return Err(ReadFailed);
      }
      var n := ExtractName(statusOf[pids[i]]);
      if n.Err? {
        return Err(n.failure);
      }
      if n.value == target {
        return Ok(pids[i]);
      }
      assert pids[i..][1..] == pids[i + 1..];
    }
    return Ok(-1);
  }

  /** main from the pid list on: find the pid (a negative one is taken for
      "not found", which is fatal), then run procMap on that process's maps
      listing. */
  method Inspect(listing: Option<seq<DirEntry>>, statusOf: map<Int64, Bytes>,
                 mapsOf: map<Int64, Bytes>, memOpens: bool, target: Bytes)
    returns (o: Outcome)
    ensures listing.None? ==> o == Outcome([], Some(ReadFailed))
    ensures listing.Some? ==>
              var found := FindPid(PidsOf(listing.value), statusOf, target);
              (found.Err? ==> o == Outcome([], Some(found.failure))) &&
              (found.Ok? && found.value < 0 ==> o == Outcome([], Some(NotFound))) &&
              (found.Ok? && found.value >= 0 && found.value !in mapsOf ==> o == Outcome([], Some(ReadFailed))) &&
              (found.Ok? && found.value >= 0 && found.value in mapsOf ==>
                 o == ScanMap(Lines(mapsOf[found.value]), memOpens))
  {
    var p := PidList(listing);
    if p.Err? {
      return Outcome([], Some(p.failure));
    }
    var pp := ProcessPid(p.value, statusOf, target);
    if pp.Err? {
      return Outcome([], Some(pp.failure));
    }
    if pp.value < 0 {
      return Outcome([], Some(NotFound));
    }
    var maps := if pp.value in mapsOf then Some(mapsOf[pp.value]) else None;
    o := ProcMap(maps, memOpens);
  }
}

/** Finding a process's name in its status record (monocanthus.go:51-59). */
module Status {
  import opened Base
  import opened Text

  /** "Name:", the key of the status line that holds the command name. */
  const NamePrefix: Bytes := [78, 97, 109, 101, 58]

  /** The line carries the name: its first five bytes are "Name:". */
  predicate IsNameLine(v: Bytes) {
    |v| >= 5 && v[..5] == NamePrefix
  }

  /** The search has examined the first `k` lines and gone on past each one:
      each was long enough to slice and none was the name line. */
  predicate PassedOver(ls: seq<Bytes>, k: nat)
    requires k <= |ls|
  {
    forall j :: 0 <= j < k ==> |ls[j]| >= 5 && !IsNameLine(ls[j])
  }

  /** The loop of extractProcessName, examining the lines in order. */
  function FindName(ls: seq<Bytes>): (r: Result<Bytes>)
    ensures r.Err? ==> r.failure == IndexPanic
    ensures r.Ok? && r.value != [] ==> !IsSpace(r.value[0]) && !IsSpace(r.value[|r.value| - 1])
  {
    if ls == [] then Ok([])
    else if |ls[0]| < 5 then Err(IndexPanic)
    else if ls[0][..5] == NamePrefix then Ok(TrimSpace(ls[0][5..]))
    else FindName(ls[1..])
  }

  /** Where the search stops decides its result: past lines that are long
      enough and not the name line, a line shorter than five bytes makes
      `v[:5]` panic, and the first line that starts with "Name:" gives the rest
      of that line with surrounding white space trimmed. */
  lemma {:induction false} FindNameStops(ls: seq<Bytes>, k: nat)
    requires k < |ls| && PassedOver(ls, k)
    ensures |ls[k]| < 5 ==> FindName(ls) == Err(IndexPanic)
    ensures IsNameLine(ls[k]) ==> FindName(ls) == Ok(TrimSpace(ls[k][5..]))
    decreases k
  {
    if k > 0 {
      assert PassedOver(ls[1..], k - 1) by {
        assert forall j :: 0 <= j < k - 1 ==> ls[1..][j] == ls[j + 1];
      }
      FindNameStops(ls[1..], k - 1);
    }
  }

  /** With no short line and no name line, the name is empty. */
  lemma {:induction false} FindNameAbsent(ls: seq<Bytes>)
    requires PassedOver(ls, |ls|)
    ensures FindName(ls) == Ok([])
    decreases |ls|
  {
    if ls != [] {
      assert PassedOver(ls[1..], |ls| - 1) by {
        assert forall j :: 0 <= j < |ls| - 1 ==> ls[1..][j] == ls[j + 1];
      }
      FindNameAbsent(ls[1..]);
    }
  }

  /** A name line at the front ends the search. */
  lemma FindNameHead(v: Bytes, ls: seq<Bytes>)
    requires IsNameLine(v)
    ensures FindName([v] + ls) == Ok(TrimSpace(v[5..]))
  {
    assert ([v] + ls)[0] == v;
  }

  /** extractProcessName: the name recorded in a status file. The only way it
      fails is the slicing panic; a name it finds never starts or ends with
      white space. */
  function ExtractProcessName(status: Bytes): (r: Result<Bytes>)
    ensures r.Err? ==> r.failure == IndexPanic
    ensures r.Ok? && r.value != [] ==> !IsSpace(r.value[0]) && !IsSpace(r.value[|r.value| - 1])
  {
    FindName(Lines(status))
  }

  /** extractProcessName as the loop it is: split the record into lines, then
      examine them in order until one is too short to slice or starts with
      "Name:". */
  method ExtractName(status: Bytes) returns (r: Result<Bytes>)
    ensures r == ExtractProcessName(status)
  {
    var ls := ScanLines(status);
    for i := 0 to |ls|
      invariant FindName(ls[i..]) == FindName(ls)
    {
      var v := ls[i];
      if |v| < 5 {
        return Err(IndexPanic);
      }
      if v[..5] == NamePrefix {
        return Ok(TrimSpace(v[5..]));
      }
      assert ls[i..][1..] == ls[i + 1..];
    }
    return Ok([]);
  }

  /** The status line "Name:", a tab and a name is a name line carrying that name. */
  lemma NameLine(name: Bytes)
    requires name == [] || (!IsSpace(name[0]) && !IsSpace(name[|name| - 1]))
    ensures IsNameLine(NamePrefix + [Tab] + name)
    ensures TrimSpace((NamePrefix + [Tab] + name)[5..]) == name
  {
    var value := [Tab] + name;
    assert (NamePrefix + [Tab] + name)[5..] == value + [];
    TrimSpaceUnique([Tab], name, []);
  }

  /** A status record whose first line is "Name:", a tab and the name gives
      back that name, as long as the name has no '\n' and no white space at
      either end; what follows the first line does not matter. */
  lemma ExtractNameFirstLine(name: Bytes, rest: Bytes)
    requires Newline !in name
    requires name == [] || (!IsSpace(name[0]) && !IsSpace(name[|name| - 1]))
    ensures ExtractProcessName(NamePrefix + [Tab] + name + [Newline] + rest) == Ok(name)
  {
    var first := NamePrefix + [Tab] + name;
    assert Newline !in first;
    LinesCons(first, rest);
    NameLine(name);
    FindNameHead(first, Lines(rest));
  }
}

/** The per-line loop of procMap (monocanthus.go:76-112): every line of a
    process's maps listing whose permission field starts with 'r' has its
    address range decoded from hexadecimal and printed as "start end". */
module MemoryMap {
  import opened Base
  import opened Text
  import opened Numbers

  /** The two numbers printed for a readable region. */
  datatype Bounds = Bounds(start: Int64, end: Int64)

  /** The field holds read permission: its first byte is 'r'. */
  predicate IsReadable(perms: Bytes) {
    perms != [] && perms[0] == LowerR
  }

  /** What one maps line does in the loop: fewer than two fields panic at
      `f[1]`; a line that is not readable is passed over (`Ok(None)`); a readable
      one opens the mem file, splits its address field on '-' into exactly two
      tokens and parses each as a base-16 int64, and any failure is fatal. */
  function DecodeLine(v: Bytes, memOpens: bool): (r: Result<Option<Bounds>>)
    ensures |Fields(v)| < 2 ==> r == Err(IndexPanic)
    ensures r == Ok(None) <==> |Fields(v)| >= 2 && !IsReadable(Fields(v)[1])
    ensures |Fields(v)| >= 2 && IsReadable(Fields(v)[1]) && !memOpens ==> r == Err(OpenFailed)
    ensures r.Ok? && r.value.Some? ==> 0 <= r.value.value.start && 0 <= r.value.value.end
  {
    var f := Fields(v);
    if |f| < 2 then Err(IndexPanic)
    else if !IsReadable(f[1]) then Ok(None)
    else if !memOpens then Err(OpenFailed)
    else
      var tokens := SplitOn(f[0], Minus);
      if |tokens| != 2 then Err(BadAddressSpace)
      else
        SplitOnShape(f[0], Minus);
        var start := ParseInt(tokens[0], 16);
        if start.Err? then Err(start.failure)
        else
          var end := ParseInt(tokens[1], 16);
          if end.Err? then Err(end.failure)
          else Ok(Some(Bounds(start.value, end.value)))
  }

  /** A line whose permission field is not readable is passed over, whatever
      its address field holds: that field is never examined. */
  lemma UnreadableAddressIgnored(addr: Bytes, addr': Bytes, rest: Bytes, memOpens: bool)
    requires addr != [] && NoSpace(addr) && addr' != [] && NoSpace(addr')
    requires rest != [] && IsSpace(rest[0])
    requires Fields(rest) != [] && !IsReadable(Fields(rest)[0])
    ensures DecodeLine(addr + rest, memOpens) == DecodeLine(addr' + rest, memOpens) == Ok(None)
  {
    FieldsCons(addr, rest);
    FieldsCons(addr', rest);
  }

  /** For a readable line the address field is the two tokens around its one
      '-', and the line decodes exactly when both tokens parse as base-16
      int64 values, which are then the printed bounds. */
  lemma DecodeAddress(v: Bytes, lo: Bytes, hi: Bytes)
    requires |Fields(v)| >= 2 && IsReadable(Fields(v)[1])
    requires Fields(v)[0] == lo + [Minus] + hi && Minus !in lo && Minus !in hi
    ensures DecodeLine(v, true).Ok? <==> ParseInt(lo, 16).Ok? && ParseInt(hi, 16).Ok?
    ensures DecodeLine(v, true).Ok? ==>
              DecodeLine(v, true).value == Some(Bounds(ParseInt(lo, 16).value, ParseInt(hi, 16).value))
    ensures DecodeLine(v, true).Err? ==> DecodeLine(v, true).failure == BadNumber
  {
    SplitOnConcat(lo, hi, Minus);
    SplitPlain(lo, Minus);
    SplitPlain(hi, Minus);
  }

  /** A readable line whose address field does not hold exactly one '-' stops
      the scan. */
  lemma AddressNeedsOneHyphen(v: Bytes)
    requires |Fields(v)| >= 2 && IsReadable(Fields(v)[1])
    requires multiset(Fields(v)[0])[Minus] != 1
    ensures DecodeLine(v, true) == Err(BadAddressSpace)
  {
    SplitOnShape(Fields(v)[0], Minus);
  }

  /** A bound above 2^63 - 1 stops the scan: no sentinel value stands in for it. */
  lemma OverflowIsFatal(v: Bytes, lo: Bytes, hi: Bytes)
    requires |Fields(v)| >= 2 && IsReadable(Fields(v)[1])
    requires Fields(v)[0] == lo + [Minus] + hi && Minus !in lo && Minus !in hi
    requires (lo != [] && AllDigitsOf(lo, 16) && Magnitude(lo, 16) > MaxInt64) ||
             (hi != [] && AllDigitsOf(hi, 16) && Magnitude(hi, 16) > MaxInt64)
    ensures DecodeLine(v, true) == Err(BadNumber)
  {
    DecodeAddress(v, lo, hi);
  }

  /** An address as the maps listing writes it: lower-case hexadecimal,
      possibly padded with leading zeros. */
  function HexAddress(x: nat, pad: nat): Bytes
  {
    Zeros(pad) + Digits(x, 16)
  }

  /** A maps line: the address range, white space, the permission field, then
      the rest of the line (offset, device, inode and path, each after white
      space). */
  function MapLine(b: Bounds, padStart: nat, padEnd: nat, gap: Bytes, perms: Bytes, tail: Bytes): Bytes
    requires 0 <= b.start && 0 <= b.end
  {
    HexAddress(b.start, padStart) + [Minus] + HexAddress(b.end, padEnd) + (gap + (perms + tail))
  }

  /** Decoding a readable maps line gives back the range it was written with. */
  lemma DecodeMapLine(b: Bounds, padStart: nat, padEnd: nat, gap: Bytes, perms: Bytes, tail: Bytes)
    requires 0 <= b.start && 0 <= b.end
    requires gap != [] && AllSpace(gap)
    requires IsReadable(perms) && NoSpace(perms)
    requires tail == [] || IsSpace(tail[0])
    ensures DecodeLine(MapLine(b, padStart, padEnd, gap, perms, tail), true) == Ok(Some(b))
  {
    var lo, hi := HexAddress(b.start, padStart), HexAddress(b.end, padEnd);
    HexAddressShape(b.start, padStart);
    HexAddressShape(b.end, padEnd);
    var v := MapLine(b, padStart, padEnd, gap, perms, tail);
    RangeNoSpace(lo, hi);
    MapLineFields(lo + [Minus] + hi, gap, perms, tail);
    DecodeAddress(v, lo, hi);
  }

  /** The fields of a maps line: the address range, the permissions, then the
      fields of the rest. */
  lemma MapLineFields(addr: Bytes, gap: Bytes, perms: Bytes, tail: Bytes)
    requires addr != [] && NoSpace(addr)
    requires gap != [] && AllSpace(gap)
    requires perms != [] && NoSpace(perms)
    requires tail == [] || IsSpace(tail[0])
    ensures Fields(addr + (gap + (perms + tail))) == [addr, perms] + Fields(tail)
  {
    FieldsCons(addr, gap + (perms + tail));
    FieldsAfterGap(gap, perms, tail);
    PrependTwo(addr, perms, Fields(tail));
  }

  /** Two fields put in front of the rest, one at a time or together. */
  lemma PrependTwo(a: Bytes, b: Bytes, rest: seq<Bytes>)
    ensures [a] + ([b] + rest) == [a, b] + rest
  {
  }

  /** A field after white space comes first among the fields. */
  lemma FieldsAfterGap(gap: Bytes, w: Bytes, tail: Bytes)
    requires AllSpace(gap)
    requires w != [] && NoSpace(w)
    requires tail == [] || IsSpace(tail[0])
    ensures Fields(gap + (w + tail)) == [w] + Fields(tail)
  {
    FieldsSkipSpace(gap, w + tail);
    FieldsCons(w, tail);
  }

  /** An address range written from two white-space-free addresses has no
      white space. */
  lemma RangeNoSpace(lo: Bytes, hi: Bytes)
    requires NoSpace(lo) && NoSpace(hi)
    ensures NoSpace(lo + [Minus] + hi)
  {
    var addr := lo + [Minus] + hi;
    assert forall k :: 0 <= k < |addr| ==> addr[k] == Minus || addr[k] in lo || addr[k] in hi;
  }

  /** A padded hexadecimal address is made of hex digits (so of no '-' and no
      white space) and parses to its value. */
  lemma HexAddressShape(x: Int64, pad: nat)
    requires 0 <= x
    ensures var h := HexAddress(x, pad);
            h != [] && AllDigitsOf(h, 16) && Minus !in h && NoSpace(h) && ParseInt(h, 16) == Ok(x)
  {
    var ds := Digits(x, 16);
    MagnitudeLeadingZeros(pad, ds, 16);
    ParseLeadingZeros(pad, ds, 16);
    ParseFormat(x, 16);
  }

  // ---------------------------------------------------------------------------
  // The scan over all lines
  // ---------------------------------------------------------------------------

  /** What a run of the loop leaves behind: the pairs printed so far, and the
      fatal error (or panic) that stopped it, if any. */
  datatype Outcome = Outcome(printed: seq<Bounds>, fatal: Option<Failure>)

  /** The loop of procMap over the lines, in order: each readable line prints
      its bounds, and the first line that fails stops the scan with the pairs
      printed before it. */
  function ScanMap(ls: seq<Bytes>, memOpens: bool): (o: Outcome)
    ensures |o.printed| <= |ls|
    decreases |ls|
  {
    if ls == [] then Outcome([], None)
    else
      var prev := ScanMap(ls[..|ls| - 1], memOpens);
      if prev.fatal.Some? then prev
      else
        match DecodeLine(ls[|ls| - 1], memOpens)
        case Err(f) => Outcome(prev.printed, Some(f))
        case Ok(None) => prev
        case Ok(Some(b)) => Outcome(prev.printed + [b], None)
  }

  /** The scan ends without error exactly when every line decodes, and an
      error it ends with is that of the first line that fails to decode. */
  lemma {:induction false} ScanMapFatal(ls: seq<Bytes>, memOpens: bool)
    ensures ScanMap(ls, memOpens).fatal.None? <==>
              forall k :: 0 <= k < |ls| ==> DecodeLine(ls[k], memOpens).Ok?
    ensures ScanMap(ls, memOpens).fatal.Some? ==>
              exists k :: 0 <= k < |ls| && DecodeLine(ls[k], memOpens) == Err(ScanMap(ls, memOpens).fatal.value)
                          && forall j :: 0 <= j < k ==> DecodeLine(ls[j], memOpens).Ok?
    decreases |ls|
  {
    if ls != [] {
      var init := ls[..|ls| - 1];
      ScanMapFatal(init, memOpens);
      assert forall k :: 0 <= k < |init| ==> init[k] == ls[k];
    }
  }

  /** Scanning two listings one after the other is scanning them joined: the
      second is scanned only if the first ends without error, and its pairs are
      printed after the first one's. */
  lemma {:induction false} ScanMapAppend(ls: seq<Bytes>, ms: seq<Bytes>, memOpens: bool)
    ensures var first := ScanMap(ls, memOpens);
            var second := ScanMap(ms, memOpens);
            ScanMap(ls + ms, memOpens) ==
              if first.fatal.Some? then first
              else Outcome(first.printed + second.printed, second.fatal)
    decreases |ms|
  {
    if ms == [] {
      assert ls + ms == ls;
    } else {
      var ms' := ms[..|ms| - 1];
      ScanMapAppend(ls, ms', memOpens);
      assert (ls + ms)[..|ls + ms| - 1] == ls + ms';
      assert (ls + ms)[|ls + ms| - 1] == ms[|ms| - 1];
    }
  }

  /** A line that is not readable can be dropped from the listing without
      changing what is printed or how the scan ends. */
  lemma UnreadableLineDropped(ls: seq<Bytes>, v: Bytes, ms: seq<Bytes>, memOpens: bool)
    requires |Fields(v)| >= 2 && !IsReadable(Fields(v)[1])
    ensures ScanMap(ls + [v] + ms, memOpens) == ScanMap(ls + ms, memOpens)
  {
    ScanMapAppend(ls, [v], memOpens);
    ScanMapAppend(ls + [v], ms, memOpens);
    ScanMapAppend(ls, ms, memOpens);
    assert [v][..0] == [];
  }

  /** procMap: read the maps listing (a read error is fatal), split it into
      lines and run the loop, stopping at the first line that fails. */
  method ProcMap(maps: Option<Bytes>, memOpens: bool) returns (o: Outcome)
    ensures maps.None? ==> o == Outcome([], Some(ReadFailed))
    ensures maps.Some? ==> o == ScanMap(Lines(maps.value), memOpens)
  {
    if maps.None? {
      return Outcome([], Some(ReadFailed));
    }
    var ls := ScanLines(maps.value);
    var printed: seq<Bounds> := [];
    for i := 0 to |ls|
      invariant ScanMap(ls[..i], memOpens) == Outcome(printed, None)
    {
      assert ls[..i + 1][..i] == ls[..i];
      var d := DecodeLine(ls[i], memOpens);
      if d.Err? {
        ScanMapAppend(ls[..i + 1], ls[i + 1..], memOpens);
        assert ls[..i + 1] + ls[i + 1..] == ls;
        return Outcome(printed, Some(d.failure));
      }
      if d.value.Some? {
        printed := printed + [d.value.value];
      }
    }
    assert ls[..|ls|] == ls;
    return Outcome(printed, None);
  }
}

/** Byte-string processing: the `lines` splitter and the pieces of Go's `strings`
    package the tool relies on (Split with a one-byte separator, Fields, TrimSpace). */
module Text {
  import opened Base

  /** ASCII white space as Go's strings.Fields and strings.TrimSpace see it. */
  predicate IsSpace(b: Byte) {
    b == Tab || b == Newline || b == 11 || b == 12 || b == 13 || b == Space
  }

  predicate AllSpace(s: Bytes) {
    forall k :: 0 <= k < |s| ==> IsSpace(s[k])
  }

  predicate NoSpace(s: Bytes) {
    forall k :: 0 <= k < |s| ==> !IsSpace(s[k])
  }

  // ---------------------------------------------------------------------------
  // Splitting on a separator byte (strings.Split with a one-byte separator)
  // ---------------------------------------------------------------------------

  /** The pieces of `s` between occurrences of `sep`, in order. */
  function SplitOn(s: Bytes, sep: Byte): (parts: seq<Bytes>)
    ensures parts != []
    decreases |s|
  {
    if s == [] then [[]]
    else
      var prev := SplitOn(s[..|s| - 1], sep);
      var c := s[|s| - 1];
      if c == sep then prev + [[]]
      else prev[..|prev| - 1] + [prev[|prev| - 1] + [c]]
  }

  /** There is one more piece than there are separators, no piece contains the
      separator, and the last piece is empty exactly when the string is empty or
      ends with the separator. */
  lemma {:induction false} SplitOnShape(s: Bytes, sep: Byte)
    ensures var parts := SplitOn(s, sep);
            && |parts| == multiset(s)[sep] + 1
            && (forall k :: 0 <= k < |parts| ==> sep !in parts[k])
            && ((parts[|parts| - 1] == []) == (s == [] || s[|s| - 1] == sep))
    decreases |s|
  {
    if s != [] {
      var s', c := s[..|s| - 1], s[|s| - 1];
      assert s == s' + [c];
      SplitOnShape(s', sep);
      var prev := SplitOn(s', sep);
      if c != sep {
        assert forall k :: 0 <= k < |prev| - 1 ==> SplitOn(s, sep)[k] == prev[k];
      }
    }
  }

  /** The pieces put back together with `sep` between neighbours (strings.Join). */
  function JoinOn(parts: seq<Bytes>, sep: Byte): Bytes
  {
    if parts == [] then []
    else if |parts| == 1 then parts[0]
    else JoinOn(parts[..|parts| - 1], sep) + [sep] + parts[|parts| - 1]
  }

  /** Joining the pieces gives back the split string. */
  lemma {:induction false} JoinSplit(s: Bytes, sep: Byte)
    ensures JoinOn(SplitOn(s, sep), sep) == s
    decreases |s|
  {
    if s != [] {
      var s', c := s[..|s| - 1], s[|s| - 1];
      assert s == s' + [c];
      JoinSplit(s', sep);
      var prev := SplitOn(s', sep);
      var parts := SplitOn(s, sep);
      if c == sep {
        assert parts == prev + [[]];
        assert parts[..|parts| - 1] == prev;
      } else {
        assert parts == prev[..|prev| - 1] + [prev[|prev| - 1] + [c]];
        if |prev| > 1 {
          assert parts[..|parts| - 1] == prev[..|prev| - 1];
        }
      }
    }
  }

  /** A separator at the end starts a new, empty piece. */
  lemma SplitOnSnocSep(s: Bytes, sep: Byte)
    ensures SplitOn(s + [sep], sep) == SplitOn(s, sep) + [[]]
  {
    assert (s + [sep])[..|s|] == s;
  }

  /** Any other byte at the end lengthens the last piece. */
  lemma SplitOnSnocOther(s: Bytes, c: Byte, sep: Byte)
    requires c != sep
    ensures var P := SplitOn(s, sep);
            SplitOn(s + [c], sep) == P[..|P| - 1] + [P[|P| - 1] + [c]]
  {
    assert (s + [c])[..|s|] == s;
  }

  /** A separator splits the string into the pieces of its two sides. */
  lemma {:induction false} SplitOnConcat(s: Bytes, t: Bytes, sep: Byte)
    ensures SplitOn(s + [sep] + t, sep) == SplitOn(s, sep) + SplitOn(t, sep)
    decreases |t|
  {
    if t == [] {
      SplitOnSnocSep(s, sep);
      assert s + [sep] + t == s + [sep];
    } else {
      var t', c := t[..|t| - 1], t[|t| - 1];
      var u' := s + [sep] + t';
      assert SplitOn(s + [sep] + t, sep) == SplitOn(u' + [c], sep) by {
        assert s + [sep] + t == u' + [c];
      }
      assert SplitOn(t, sep) == SplitOn(t' + [c], sep) by {
        assert t == t' + [c];
      }
      SplitOnConcat(s, t', sep);
      if c == sep {
        SplitOnSnocSep(u', sep);
        SplitOnSnocSep(t', sep);
      } else {
        SplitOnSnocOther(u', c, sep);
        SplitOnSnocOther(t', c, sep);
        ExtendLast(SplitOn(s, sep), SplitOn(t', sep), c);
      }
    }
  }

  /** Lengthening the last piece of a concatenation lengthens the last piece of its second part. */
  lemma ExtendLast(P: seq<Bytes>, Q: seq<Bytes>, c: Byte)
    requires Q != []
    ensures var R := P + Q;
            R[..|R| - 1] + [R[|R| - 1] + [c]] == P + (Q[..|Q| - 1] + [Q[|Q| - 1] + [c]])
  {
    var R := P + Q;
    assert R[..|R| - 1] == P + Q[..|Q| - 1];
  }

  /** A string without the separator is a single piece. */
  lemma SplitPlain(s: Bytes, sep: Byte)
    requires sep !in s
    ensures SplitOn(s, sep) == [s]
  {
    assert multiset(s)[sep] == 0;
    SplitOnShape(s, sep);
    JoinSplit(s, sep);
  }

  /** Splitting a join gives back the pieces, provided none contains the separator. */
  lemma {:induction false} SplitJoin(parts: seq<Bytes>, sep: Byte)
    requires parts != []
    requires forall k :: 0 <= k < |parts| ==> sep !in parts[k]
    ensures SplitOn(JoinOn(parts, sep), sep) == parts
    decreases |parts|
  {
    if |parts| == 1 {
      SplitPlain(parts[0], sep);
    } else {
      var init, last := parts[..|parts| - 1], parts[|parts| - 1];
      SplitJoin(init, sep);
      SplitOnConcat(JoinOn(init, sep), last, sep);
      SplitPlain(last, sep);
      assert parts == init + [last];
    }
  }

  // ---------------------------------------------------------------------------
  // lines (monocanthus.go:35-49)
  // ---------------------------------------------------------------------------

  /** The lines of a buffer as `lines` yields them: the pieces between newlines,
      where the piece after the last newline is kept only when it is not empty. */
  function Lines(buf: Bytes): (ls: seq<Bytes>)
    ensures forall k :: 0 <= k < |ls| ==> Newline !in ls[k]
    ensures |ls| == multiset(buf)[Newline] + (if buf != [] && buf[|buf| - 1] != Newline then 1 else 0)
  {
    var parts := SplitOn(buf, Newline);
    SplitOnShape(buf, Newline);
    if parts[|parts| - 1] == [] then parts[..|parts| - 1] else parts
  }

  /** The buffer-building loop of `lines`: bytes other than '\n' are appended to
      the current line, a '\n' emits it and starts a fresh one, and the last line
      is emitted after the loop only if it is non-empty. */
  method ScanLines(buf: Bytes) returns (out: seq<Bytes>)
    ensures out == Lines(buf)
  {
    var l: Bytes := [];
    out := [];
    for i := 0 to |buf|
      invariant out + [l] == SplitOn(buf[..i], Newline)
    {
      assert buf[..i + 1] == buf[..i] + [buf[i]];
      if buf[i] != Newline {
        l := l + [buf[i]];
      } else {
        out := out + [l];
        l := [];
      }
    }
    assert buf[..|buf|] == buf;
    if |l| > 0 {
      out := out + [l];
    } else {
      assert (out + [l])[..|out|] == out;
    }
  }

  /** Joining the lines with '\n' gives back the buffer with at most one
      trailing '\n' removed. */
  lemma LinesJoin(buf: Bytes)
    ensures JoinOn(Lines(buf), Newline) ==
              if buf != [] && buf[|buf| - 1] == Newline then buf[..|buf| - 1] else buf
  {
    JoinSplit(buf, Newline);
    if buf != [] && buf[|buf| - 1] == Newline {
      var init := buf[..|buf| - 1];
      JoinSplit(init, Newline);
      assert SplitOn(buf, Newline) == SplitOn(init, Newline) + [[]];
      assert Lines(buf) == SplitOn(init, Newline);
    }
  }

  /** Each line followed by a '\n': the text a list of lines is written as. */
  function Unlines(ls: seq<Bytes>): Bytes
  {
    if ls == [] then [] else JoinOn(ls, Newline) + [Newline]
  }

  /** Lines undoes Unlines, whatever the lines, as long as none holds a '\n'. */
  lemma LinesUnlines(ls: seq<Bytes>)
    requires forall k :: 0 <= k < |ls| ==> Newline !in ls[k]
    ensures Lines(Unlines(ls)) == ls
  {
    if ls != [] {
      var u := Unlines(ls);
      SplitJoin(ls, Newline);
      assert u[..|u| - 1] == JoinOn(ls, Newline);
      assert SplitOn(u, Newline) == ls + [[]];
    }
  }

  /** Unlines undoes Lines up to the final '\n': the buffer comes back unchanged
      when it is empty or ends in '\n', and with one '\n' added otherwise. */
  lemma UnlinesLines(buf: Bytes)
    ensures Unlines(Lines(buf)) == if buf != [] && buf[|buf| - 1] != Newline then buf + [Newline] else buf
  {
    LinesJoin(buf);
    if buf != [] && buf[|buf| - 1] == Newline {
      assert buf[|buf| - 1] in multiset(buf);
      assert buf[..|buf| - 1] + [Newline] == buf;
    }
  }

  /** A line ended by '\n' is the first line, whatever follows it. */
  lemma LinesCons(a: Bytes, rest: Bytes)
    requires Newline !in a
    ensures Lines(a + [Newline] + rest) == [a] + Lines(rest)
  {
    SplitOnConcat(a, rest, Newline);
    SplitPlain(a, Newline);
    var R := SplitOn(rest, Newline);
    assert ([a] + R)[..|R|] == [a] + R[..|R| - 1];
  }

  /** The cases the line splitter is known for: no line for an empty buffer, an
      empty line for a lone '\n', and a blank line kept between two newlines. */
  lemma LinesExamples()
    ensures Lines([]) == []
    ensures Lines([Newline]) == [[]]
    ensures Lines([97, Newline, Newline]) == [[97], []]
  {
    assert [Newline] == [] + [Newline] + [];
    SplitOnConcat([], [], Newline);
    assert [97, Newline, Newline] == [97] + [Newline] + [Newline];
    SplitOnConcat([97], [Newline], Newline);
    SplitOnConcat([], [], Newline);
    SplitPlain([97], Newline);
  }

  // ---------------------------------------------------------------------------
  // strings.Fields and strings.TrimSpace
  // ---------------------------------------------------------------------------

  /** Length of the longest prefix of `s` made only of white space (`space`) or
      only of other bytes (`!space`). */
  function Run(s: Bytes, space: bool): (n: nat)
    ensures n <= |s|
    ensures forall k :: 0 <= k < n ==> IsSpace(s[k]) == space
    ensures n < |s| ==> IsSpace(s[n]) != space
    decreases |s|
  {
    if s == [] || IsSpace(s[0]) != space then 0 else 1 + Run(s[1..], space)
  }

  /** Length of the longest suffix of `s` made only of white space. */
  function TrailingSpace(s: Bytes): (n: nat)
    ensures n <= |s|
    ensures forall k :: |s| - n <= k < |s| ==> IsSpace(s[k])
    ensures n < |s| ==> !IsSpace(s[|s| - n - 1])
    decreases |s|
  {
    if s == [] || !IsSpace(s[|s| - 1]) then 0 else 1 + TrailingSpace(s[..|s| - 1])
  }

  /** The maximal runs of non-space bytes of `s`, in order (strings.Fields). */
  function Fields(s: Bytes): seq<Bytes>
    decreases |s|
  {
    if s == [] then []
    else if IsSpace(s[0]) then Fields(s[1..])
    else
      var n := Run(s, false);
      [s[..n]] + Fields(s[n..])
  }

  /** Every field is a nonempty run of non-space bytes, and there are no
      fields exactly when the string is all white space. */
  lemma {:induction false} FieldsShape(s: Bytes)
    ensures var fs := Fields(s);
            && (forall k :: 0 <= k < |fs| ==> fs[k] != [] && NoSpace(fs[k]))
            && (fs == [] <==> AllSpace(s))
    decreases |s|
  {
    if s != [] {
      if IsSpace(s[0]) {
        FieldsShape(s[1..]);
        assert AllSpace(s) <==> AllSpace(s[1..]) by {
          assert forall k :: 0 < k < |s| ==> s[k] == s[1..][k - 1];
        }
      } else {
        var n := Run(s, false);
        FieldsShape(s[n..]);
        var fs := Fields(s);
        assert fs[0] == s[..n];
        assert forall k :: 1 <= k < |fs| ==> fs[k] == Fields(s[n..])[k - 1];
      }
    }
  }

  /** Leading white space does not change the fields. */
  lemma {:induction false} FieldsSkipSpace(pad: Bytes, t: Bytes)
    requires AllSpace(pad)
    ensures Fields(pad + t) == Fields(t)
    decreases |pad|
  {
    if pad == [] {
      assert pad + t == t;
    } else {
      assert (pad + t)[0] == pad[0];
      assert (pad + t)[1..] == pad[1..] + t;
      FieldsSkipSpace(pad[1..], t);
    }
  }

  /** A run of bytes of one kind ends where a byte of the other kind (or the end) follows. */
  lemma {:induction false} RunOver(w: Bytes, t: Bytes, space: bool)
    requires forall k :: 0 <= k < |w| ==> IsSpace(w[k]) == space
    requires t == [] || IsSpace(t[0]) != space
    ensures Run(w + t, space) == |w|
    decreases |w|
  {
    if w == [] {
      assert w + t == t;
    } else {
      assert (w + t)[0] == w[0];
      assert (w + t)[1..] == w[1..] + t;
      RunOver(w[1..], t, space);
    }
  }

  /** A run of trailing white space ends where a non-space byte (or the start) precedes. */
  lemma {:induction false} TrailingSpaceOver(t: Bytes, post: Bytes)
    requires AllSpace(post)
    requires t == [] || !IsSpace(t[|t| - 1])
    ensures TrailingSpace(t + post) == |post|
    decreases |post|
  {
    if post == [] {
      assert t + post == t;
    } else {
      var s := t + post;
      assert s[|s| - 1] == post[|post| - 1];
      assert s[..|s| - 1] == t + post[..|post| - 1];
      TrailingSpaceOver(t, post[..|post| - 1]);
    }
  }

  /** A word followed by white space (or by nothing) is the first field. */
  lemma FieldsCons(w: Bytes, t: Bytes)
    requires w != [] && NoSpace(w)
    requires t == [] || IsSpace(t[0])
    ensures Fields(w + t) == [w] + Fields(t)
  {
    var s := w + t;
    RunOver(w, t, false);
    assert s[0] == w[0];
    assert s[..|w|] == w && s[|w|..] == t;
  }

  /** Go's strings.TrimSpace: `s` without its leading and trailing white space. */
  function TrimSpace(s: Bytes): (t: Bytes)
    ensures exists i :: 0 <= i <= |s| - |t| && s == s[..i] + t + s[i + |t|..]
                        && AllSpace(s[..i]) && AllSpace(s[i + |t|..])
    ensures t == [] || (!IsSpace(t[0]) && !IsSpace(t[|t| - 1]))
  {
    var i := Run(s, true);
    var rest := s[i..];
    var n := TrailingSpace(rest);
    var t := rest[..|rest| - n];
    assert s == s[..i] + t + s[i + |t|..];
    assert s[i + |t|..] == rest[|t|..];
    assert AllSpace(s[..i]);
    assert AllSpace(rest[|t|..]);
    t
  }

  /** TrimSpace is determined by its contract: whatever white space surrounds a
      string that neither starts nor ends with white space, it is trimmed away. */
  lemma TrimSpaceUnique(pre: Bytes, t: Bytes, post: Bytes)
    requires AllSpace(pre) && AllSpace(post)
    requires t == [] || (!IsSpace(t[0]) && !IsSpace(t[|t| - 1]))
    ensures TrimSpace(pre + t + post) == t
  {
    var s := pre + t + post;
    if t == [] {
      assert s == s + [];
      RunOver(s, [], true);
    } else {
      assert s == pre + (t + post);
      RunOver(pre, t + post, true);
      var rest := s[|pre|..];
      assert rest == t + post;
      TrailingSpaceOver(t, post);
      assert rest[..|rest| - |post|] == t;
    }
  }

  /** Trimming twice is trimming once. */
  lemma TrimSpaceIdempotent(s: Bytes)
    ensures TrimSpace(TrimSpace(s)) == TrimSpace(s)
  {
    var t := TrimSpace(s);
    assert t == [] + t + [];
    TrimSpaceUnique([], t, []);
  }
}

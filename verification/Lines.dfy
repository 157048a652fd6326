/** Splitting a byte stream into lines, in the two ways the library offers.

    A stream s is what arrives before the line falls silent; a read beyond it times out. */
module Lines {
  import opened Bytes
  import opened Transport

  predicate EndsWith(b: seq<byte>, eol: seq<byte>)
  {
    |eol| <= |b| && b[|b| - |eol|..] == eol
  }

  lemma EndsWithIff(b: seq<byte>, eol: seq<byte>)
    ensures EndsWith(b, eol) <==> exists x: seq<byte> :: b == x + eol
  {
    if EndsWith(b, eol) {
      assert b == b[..|b| - |eol|] + eol;
    }
  }

  // ---------------------------------------------------------------- one line

  /** Bytes in the line, once k of them have been read without finding its end. */
  function LineLength(s: seq<byte>, size: nat, eol: seq<byte>, k: nat): (n: nat)
    requires k <= |s| && k < size
    ensures k <= n <= |s| && n <= size
    ensures n == k ==> k == |s|
    decreases |s| - k
  {
    if k == |s| then k
    else if EndsWith(s[..k + 1], eol) || k + 1 == size then k + 1
    else LineLength(s, size, eol, k + 1)
  }

  function LineOf(s: seq<byte>, size: nat, eol: seq<byte>): seq<byte>
    requires size > 0
  {
    s[..LineLength(s, size, eol, 0)]
  }

  /** Reading single lines, each with what is left of the budget, until one comes back empty. */
  function LineByLine(s: seq<byte>, size: nat, eol: seq<byte>): seq<seq<byte>>
    decreases size, 1
  {
    if size == 0 then [] else LineThenLines(s, size, eol, LineLength(s, size, eol, 0))
  }

  /** A line of n bytes, none if n is zero, and what reading line by line makes of the rest. */
  function LineThenLines(s: seq<byte>, size: nat, eol: seq<byte>, n: nat): seq<seq<byte>>
    requires n <= |s| && n <= size
    decreases size, 0
  {
    if n == 0 then [] else [s[..n]] + LineByLine(s[n..], size - n, eol)
  }

  // ---------------------------------------------------------------- all lines at once

  /** Lines found from the state of the loop: k bytes read, the current line starting at a. */
  function LinesFrom(s: seq<byte>, size: nat, eol: seq<byte>, k: nat, a: nat): seq<seq<byte>>
    requires a <= k <= |s|
    decreases |s| - k
  {
    if k >= size then []
    else if k == |s| then Rest(s, k, a)
    else
      var found := EndsWith(s[..k + 1], eol);
      var a' := if found then k + 1 else a;
      (if found then [s[a..k + 1]] else [])
      + if k + 1 == size then Rest(s, k + 1, a') else LinesFrom(s, size, eol, k + 1, a')
  }

  function Rest(s: seq<byte>, k: nat, a: nat): seq<seq<byte>>
    requires a <= k <= |s|
  {
    if a != k then [s[a..k]] else []
  }

  function AllLines(s: seq<byte>, size: nat, eol: seq<byte>): seq<seq<byte>>
  {
    LinesFrom(s, size, eol, 0, 0)
  }

  // ---------------------------------------------------------------- borders

  /** No proper non-empty prefix of w is also a suffix. */
  ghost predicate BorderFree(w: seq<byte>)
  {
    forall b :: 0 < b < |w| ==> w[..b] != w[|w| - b..]
  }

  /** Occurrences of a border-free word never overlap. */
  lemma NoOverlap(s: seq<byte>, w: seq<byte>, i: nat, j: nat)
    requires BorderFree(w)
    requires i < j <= |s| && EndsWith(s[..i], w) && EndsWith(s[..j], w)
    ensures i + |w| <= j
  {
    var n := |w|;
    var b := n - (j - i);
    if b > 0 {
      assert s[..i][i - n..] == s[i - n..i] && s[..j][j - n..] == s[j - n..j];
      SliceOfSlice(s, i - n, i, n - b, n);
      SliceOfSlice(s, j - n, j, 0, b);
    }
  }

  /** When the current line starts after a terminator, or at the start of the stream, a
      border-free terminator is found in the whole buffer just when it is found in the line. */
  lemma WindowStaysInLine(s: seq<byte>, eol: seq<byte>, a: nat, k: nat)
    requires BorderFree(eol) && a < k <= |s|
    requires a == 0 || EndsWith(s[..a], eol)
    ensures EndsWith(s[..k], eol) <==> EndsWith(s[a..k], eol)
  {
    var n := |eol|;
    if n <= k - a {
      assert s[..k][k - n..] == s[k - n..k] == s[a..k][k - a - n..];
    } else if EndsWith(s[..k], eol) {
      NoOverlap(s, eol, a, k);
    }
  }

  // ---------------------------------------------------------------- agreement

  lemma {:induction false} LinesFromAgree(s: seq<byte>, size: nat, eol: seq<byte>, k: nat, a: nat)
    requires BorderFree(eol)
    requires a <= k <= |s| && k < size
    requires a == 0 || EndsWith(s[..a], eol)
    ensures var n := LineLength(s[a..], size - a, eol, k - a);
            LinesFrom(s, size, eol, k, a) == LineThenLines(s[a..], size - a, eol, n)
    decreases |s| - k
  {
    hide LinesFrom, LineThenLines, EndsWith, BorderFree;
    var t := s[a..];
    var n := LineLength(t, size - a, eol, k - a);
    var k' := k + 1;
    if k == |s| {
      assert t[n..] == [] && t[..n] == s[a..k];
      SilentStream(size - a - n, eol);
      LineThenRest(t, size - a, eol, n);
      LinesFromEnd(s, size, eol, k, a);
    } else {
      LinesFromUnfold(s, size, eol, k, a);
      WindowStaysInLine(s, eol, a, k');
      assert t[..k' - a] == s[a..k'] && t[k' - a..] == s[k'..];
      if k' == size {
        assert n == k' - a;
        LineByLineUnfold(s[k'..], 0, eol);
        LineThenRest(t, size - a, eol, n);
      } else if EndsWith(s[..k'], eol) {
        assert n == k' - a;
        LinesFromAgree(s, size, eol, k', k');
        LineByLineUnfold(s[k'..], size - k', eol);
        LineThenRest(t, size - a, eol, n);
      } else {
        LinesFromAgree(s, size, eol, k', a);
      }
    }
  }

  lemma LineThenRest(s: seq<byte>, size: nat, eol: seq<byte>, n: nat)
    requires n <= |s| && n <= size
    ensures LineThenLines(s, size, eol, n) == if n == 0 then [] else [s[..n]] + LineByLine(s[n..], size - n, eol)
  {
    hide LineByLine;
  }

  lemma LineByLineUnfold(s: seq<byte>, size: nat, eol: seq<byte>)
    ensures LineByLine(s, size, eol)
            == if size == 0 then [] else LineThenLines(s, size, eol, LineLength(s, size, eol, 0))
  {
    hide LineThenLines;
  }

  lemma SilentStream(size: nat, eol: seq<byte>)
    ensures LineByLine([], size, eol) == []
  {
  }

  /** The two ways of reading lines agree on every stream and budget if the terminator is border-free. */
  lemma LinesAgree(s: seq<byte>, size: nat, eol: seq<byte>)
    requires BorderFree(eol)
    ensures AllLines(s, size, eol) == LineByLine(s, size, eol)
  {
    if size > 0 {
      LinesFromAgree(s, size, eol, 0, 0);
      LineByLineUnfold(s, size, eol);
      assert s[0..] == s;
    }
  }

  // ---------------------------------------------------------------- the converse

  /** Total length of the first i lines. */
  function Offset(lines: seq<seq<byte>>, i: nat): nat
    requires i <= |lines|
  {
    if i == 0 then 0 else |lines[0]| + Offset(lines[1..], i - 1)
  }

  /** Reading all lines at once cuts after every occurrence of the terminator, overlapping or not. */
  lemma {:induction false} CutAtEveryEnd(s: seq<byte>, size: nat, eol: seq<byte>, k: nat, a: nat, j: nat) returns (i: nat)
    requires a <= k < j <= |s| && j <= size
    requires EndsWith(s[..j], eol)
    ensures i <= |LinesFrom(s, size, eol, k, a)| && a + Offset(LinesFrom(s, size, eol, k, a), i) == j
    decreases |s| - k
  {
    hide EndsWith, LinesFrom;
    LinesFromUnfold(s, size, eol, k, a);
    var k' := k + 1;
    if k' == j {
      OffsetCons(s[a..k'], if k' == size then Rest(s, k', k') else LinesFrom(s, size, eol, k', k'), 0);
      i := 1;
    } else if EndsWith(s[..k'], eol) {
      var i' := CutAtEveryEnd(s, size, eol, k', k', j);
      OffsetCons(s[a..k'], LinesFrom(s, size, eol, k', k'), i');
      i := i' + 1;
    } else {
      i := CutAtEveryEnd(s, size, eol, k', a, j);
    }
  }

  lemma LinesFromUnfold(s: seq<byte>, size: nat, eol: seq<byte>, k: nat, a: nat)
    requires a <= k < |s| && k < size
    ensures var found := EndsWith(s[..k + 1], eol);
            var a' := if found then k + 1 else a;
            var tail := if k + 1 == size then Rest(s, k + 1, a') else LinesFrom(s, size, eol, k + 1, a');
            LinesFrom(s, size, eol, k, a) == if found then [s[a..k + 1]] + tail else tail
  {
  }

  lemma OffsetCons(line: seq<byte>, lines: seq<seq<byte>>, i: nat)
    requires i <= |lines|
    ensures Offset([line] + lines, i + 1) == |line| + Offset(lines, i)
  {
    assert ([line] + lines)[1..] == lines;
  }

  /** The stream on which the two ways differ for a terminator w with a border of length b:
      w, then w without its border, then a byte other than the last of w. */
  function Overlapping(w: seq<byte>, b: nat): seq<byte>
    requires 0 < b < |w|
  {
    w + w[b..] + [Other(w[|w| - 1])]
  }

  function Other(x: byte): (y: byte)
    ensures y != x
  {
    if x == 0 then 1 else 0
  }

  lemma {:induction false} FirstEnd(s: seq<byte>, size: nat, eol: seq<byte>, k: nat, n: nat)
    requires k < n <= |s| && n <= size
    requires forall j :: k < j < n ==> !EndsWith(s[..j], eol)
    requires EndsWith(s[..n], eol) || n == size || n == |s|
    ensures LineLength(s, size, eol, k) == n
    decreases n - k
  {
    if k + 1 < n {
      FirstEnd(s, size, eol, k + 1, n);
    }
  }

  lemma OverlappingLineByLine(w: seq<byte>, b: nat)
    requires 0 < b < |w|
    ensures var s := Overlapping(w, b);
            LineByLine(s, |s|, w) == [w, w[b..] + [Other(w[|w| - 1])]]
  {
    var s, n := Overlapping(w, b), |w|;
    var t := w[b..] + [Other(w[n - 1])];
    assert s == w + t && s[..n] == w && s[n..] == t;
    FirstEnd(s, |s|, w, 0, n);
    FirstEnd(t, |t|, w, 0, |t|);
    assert t[..|t|] == t && t[|t|..] == [];
    assert LineByLine(t, |t|, w) == [t] + LineByLine([], 0, w);
    assert LineByLine(s, |s|, w) == [w] + LineByLine(t, |t|, w);
  }

  /** The border makes a second occurrence end before the last byte. */
  lemma BorderGivesSecondEnd(w: seq<byte>, b: nat)
    requires 0 < b < |w| && w[..b] == w[|w| - b..]
    ensures var s := Overlapping(w, b); var j := |w| + |w| - b;
            j < |s| && EndsWith(s[..j], w)
  {
    var s, m := Overlapping(w, b), |w| - b;
    var head := w + w[b..];
    assert s[..|w| + m] == head;
    assert head[m..] == w[m..] + w[b..];
    assert w[..b] + w[b..] == w;
  }

  /** A terminator with a border makes the two ways differ. */
  lemma BordersDisagree(w: seq<byte>, b: nat)
    requires 0 < b < |w| && w[..b] == w[|w| - b..]
    ensures var s := Overlapping(w, b); AllLines(s, |s|, w) != LineByLine(s, |s|, w)
  {
    hide LineByLine, LinesFrom, EndsWith, Overlapping;
    var s := Overlapping(w, b);
    BorderGivesSecondEnd(w, b);
    OverlappingLineByLine(w, b);
    var i := CutAtEveryEnd(s, |s|, w, 0, 0, |w| + |w| - b);
    if AllLines(s, |s|, w) == LineByLine(s, |s|, w) {
      OffsetsOfTwo(w, w[b..] + [Other(w[|w| - 1])], i);
      assert false;
    }
  }

  lemma OffsetsOfTwo(x: seq<byte>, y: seq<byte>, i: nat)
    requires i <= 2
    ensures Offset([x, y], i) == if i == 0 then 0 else if i == 1 then |x| else |x| + |y|
  {
    assert [x, y][1..] == [y] && [y][1..] == [];
    assert i == 2 ==> Offset([y], 1) == |y| + Offset([], 0);
  }

  /** Reading all lines at once is the same as reading line by line, on all streams and with all
      budgets, exactly for terminators without a border. */
  lemma AgreeIffBorderFree(eol: seq<byte>)
    ensures BorderFree(eol) <==> forall s: seq<byte>, size: nat :: AllLines(s, size, eol) == LineByLine(s, size, eol)
  {
    if BorderFree(eol) {
      forall s: seq<byte>, size: nat
        ensures AllLines(s, size, eol) == LineByLine(s, size, eol)
      {
        LinesAgree(s, size, eol);
      }
    } else {
      var b :| 0 < b < |eol| && eol[..b] == eol[|eol| - b..];
      BordersDisagree(eol, b);
    }
  }

  // ---------------------------------------------------------------- partition

  function Join(lines: seq<seq<byte>>): seq<byte>
  {
    if |lines| == 0 then [] else lines[0] + Join(lines[1..])
  }

  /** The lines are the bytes read, cut into non-empty pieces, for every terminator and budget. */
  lemma {:induction false} LinesPartition(s: seq<byte>, size: nat, eol: seq<byte>, k: nat, a: nat)
    requires a <= k <= |s| && k < size
    ensures var lines := LinesFrom(s, size, eol, k, a);
            && Join(lines) == s[a..if size < |s| then size else |s|]
            && forall i :: 0 <= i < |lines| ==> lines[i] != []
    decreases |s| - k
  {
    hide EndsWith, LinesFrom, Rest;
    var end := if size < |s| then size else |s|;
    if k == |s| {
      RestJoin(s, k, a);
      LinesFromEnd(s, size, eol, k, a);
    } else {
      LinesFromUnfold(s, size, eol, k, a);
      var k' := k + 1;
      var a' := if EndsWith(s[..k'], eol) then k' else a;
      var tail := if k' == size then Rest(s, k', a') else LinesFrom(s, size, eol, k', a');
      if k' == size {
        RestJoin(s, k', a');
      } else {
        LinesPartition(s, size, eol, k', a');
      }
      JoinCons(s[a..k'], tail);
      assert s[a..k'] + s[k'..end] == s[a..end];
    }
  }

  lemma JoinCons(line: seq<byte>, lines: seq<seq<byte>>)
    ensures Join([line] + lines) == line + Join(lines)
  {
    assert ([line] + lines)[1..] == lines;
  }

  lemma LinesFromEnd(s: seq<byte>, size: nat, eol: seq<byte>, k: nat, a: nat)
    requires a <= k == |s| && k < size
    ensures LinesFrom(s, size, eol, k, a) == Rest(s, k, a)
  {
  }

  lemma RestJoin(s: seq<byte>, k: nat, a: nat)
    requires a <= k <= |s|
    ensures Join(Rest(s, k, a)) == s[a..k]
    ensures forall i :: 0 <= i < |Rest(s, k, a)| ==> Rest(s, k, a)[i] != []
  {
    if a != k {
      assert Rest(s, k, a)[1..] == [];
    }
  }

  lemma AllLinesPartition(s: seq<byte>, size: nat, eol: seq<byte>)
    ensures var lines := AllLines(s, size, eol);
            && Join(lines) == s[..if size < |s| then size else |s|]
            && forall i :: 0 <= i < |lines| ==> lines[i] != []
  {
    if size > 0 {
      LinesPartition(s, size, eol, 0, 0);
    }
  }

  // ---------------------------------------------------------------- shape of the lines

  /** The terminator occurs in the line at most once, at its very end. */
  predicate OnlyAtEnd(line: seq<byte>, eol: seq<byte>)
  {
    forall j :: 0 < j < |line| ==> !EndsWith(line[..j], eol)
  }

  lemma {:induction false} LineShape(s: seq<byte>, size: nat, eol: seq<byte>, k: nat)
    requires k <= |s| && k < size
    requires forall j :: 0 < j <= k ==> !EndsWith(s[..j], eol)
    ensures var n := LineLength(s, size, eol, k);
            && (forall j :: 0 < j < n ==> !EndsWith(s[..j], eol))
            && (n == |s| || n == size || EndsWith(s[..n], eol))
    decreases |s| - k
  {
    if k < |s| && !EndsWith(s[..k + 1], eol) && k + 1 < size {
      LineShape(s, size, eol, k + 1);
    }
  }

  /** With a border-free terminator every line but possibly the last ends in it, and no line
      contains it anywhere else. */
  lemma {:induction false} LinesTerminated(s: seq<byte>, size: nat, eol: seq<byte>, i: nat)
    requires BorderFree(eol) && i < |AllLines(s, size, eol)|
    ensures var lines := AllLines(s, size, eol);
            OnlyAtEnd(lines[i], eol) && (i + 1 < |lines| ==> EndsWith(lines[i], eol))
    decreases i
  {
    LinesAgree(s, size, eol);
    LineByLineTerminated(s, size, eol, i);
  }

  lemma {:induction false} LineByLineTerminated(s: seq<byte>, size: nat, eol: seq<byte>, i: nat)
    requires i < |LineByLine(s, size, eol)|
    ensures var lines := LineByLine(s, size, eol);
            OnlyAtEnd(lines[i], eol) && (i + 1 < |lines| ==> EndsWith(lines[i], eol))
    decreases i
  {
    hide LineByLine, LineThenLines, LineLength, EndsWith, OnlyAtEnd;
    LineByLineUnfold(s, size, eol);
    var n := LineLength(s, size, eol, 0);
    var tail := LineByLine(s[n..], size - n, eol);
    LineThenRest(s, size, eol, n);
    assert LineByLine(s, size, eol) == [s[..n]] + tail;
    if i > 0 {
      LineByLineTerminated(s[n..], size - n, eol, i - 1);
    } else {
      FirstLineTerminated(s, size, eol);
    }
  }

  lemma FirstLineTerminated(s: seq<byte>, size: nat, eol: seq<byte>)
    requires size > 0
    ensures var n := LineLength(s, size, eol, 0);
            OnlyAtEnd(s[..n], eol) && (LineByLine(s[n..], size - n, eol) != [] ==> EndsWith(s[..n], eol))
  {
    hide LineByLine, EndsWith;
    var n := LineLength(s, size, eol, 0);
    LineShape(s, size, eol, 0);
    forall j | 0 < j < n
      ensures !EndsWith(s[..n][..j], eol)
    {
      assert s[..n][..j] == s[..j];
    }
    LineByLineUnfold(s[n..], size - n, eol);
    if n == |s| {
      SilentStream(size - n, eol);
      assert s[n..] == [];
    }
  }

  // ---------------------------------------------------------------- the loops

  /** Reading all lines of the first n bytes comes, after k of them, to the lines found so far
      and those still to be found. */
  ghost predicate FoundSoFar(
    rx: seq<byte>, n: nat, size: nat, eol: seq<byte>, lines: seq<seq<byte>>, k: nat, a: nat)
    requires a <= k <= n <= |rx|
  {
    AllLines(rx[..n], size, eol) == lines + LinesFrom(rx[..n], size, eol, k, a)
  }

  lemma StartsEmpty(rx: seq<byte>, size: nat, eol: seq<byte>)
    ensures forall n :: 0 <= n <= |rx| ==> FoundSoFar(rx, n, size, eol, [], 0, 0)
    ensures size == 0 ==> AllLines(rx[..|rx|], size, eol) == []
  {
  }

  lemma EndOfStream(rx: seq<byte>, size: nat, eol: seq<byte>, k: nat, a: nat)
    requires a <= k <= |rx| && k < size
    ensures LinesFrom(rx[..k], size, eol, k, a) == Rest(rx, k, a)
  {
    assert rx[..k][a..k] == rx[a..k];
  }

  lemma FoundByteByByte(
    rx: seq<byte>, n: nat, size: nat, eol: seq<byte>, lines: seq<seq<byte>>, k: nat, a: nat)
    requires a <= k < n <= |rx| && k < size
    requires FoundSoFar(rx, n, size, eol, lines, k, a)
    ensures var found := EndsWith(rx[..k + 1], eol);
            var lines' := if found then lines + [rx[a..k + 1]] else lines;
            var a' := if found then k + 1 else a;
            if k + 1 == size then AllLines(rx[..n], size, eol) == lines' + Rest(rx, k + 1, a')
            else FoundSoFar(rx, n, size, eol, lines', k + 1, a')
  {
    hide LinesFrom, EndsWith, AllLines;
    var s := rx[..n];
    assert s[..k + 1] == rx[..k + 1] && s[a..k + 1] == rx[a..k + 1];
    LinesFromUnfold(s, size, eol, k, a);
  }

  class Serial {
    const pimpl: SerialImpl

    constructor (pimpl: SerialImpl)
      ensures this.pimpl == pimpl
    {
      this.pimpl := pimpl;
    }

    /** One byte into buf[k]; got says whether it arrived before the timeout. */
    method ReadByte(buf: array<byte>, k: nat, ghost rx: seq<byte>) returns (got: bool, threw: bool)
      requires pimpl.isOpen && k < buf.Length
      requires k <= |rx| && pimpl.line.rx == rx[k..] && buf[..k] == rx[..k]
      modifies pimpl.line`rx, pimpl.line`sys, buf
      ensures !threw ==> k + (if got then 1 else 0) <= |rx|
      ensures !threw ==> pimpl.line.rx == rx[k + if got then 1 else 0..]
      ensures !threw ==> buf[..k + if got then 1 else 0] == rx[..k + if got then 1 else 0]
      ensures pimpl.line.sys.clock >= old(pimpl.line.sys.clock) && pimpl.line.sys.faults >= old(pimpl.line.sys.faults)
      ensures threw ==> pimpl.line.sys.faults > old(pimpl.line.sys.faults)
      ensures !threw && !got ==>
        pimpl.line.sys.clock + 1_000_000 > old(pimpl.line.sys.clock)
          + (pimpl.timeout.readConstant as int + pimpl.timeout.readMultiplier as int) % 0x1_0000_0000 * 1_000_000
    {
      ghost var before := buf[..];
      var r := pimpl.Read(buf, k, 1);
      got, threw := r.Count() == 1, !r.Done?;
      OverlayChunks(before, 0, rx, k, r.Count());
      assert before == Overlay(before, 0, rx[..k]);
      assert buf[..] == Overlay(before, 0, rx[..k + r.Count()]);
    }

    /** Read one line. arrived is how much of the stream came before the line fell silent; a line that is
        neither terminated nor full has been waited for until the countdown of a read ran down. */
    method Readline(size: nat, eol: seq<byte>) returns (line: seq<byte>, threw: bool, ghost arrived: nat)
      requires pimpl.isOpen && size > 0
      modifies pimpl.line`rx, pimpl.line`sys
      ensures !threw ==> |line| <= arrived <= |old(pimpl.line.rx)|
      ensures !threw ==> line == LineOf(old(pimpl.line.rx)[..arrived], size, eol)
      ensures !threw ==> pimpl.line.rx == old(pimpl.line.rx)[|line|..]
      ensures threw ==> pimpl.line.sys.faults > old(pimpl.line.sys.faults)
      ensures !threw && |line| < size && !EndsWith(line, eol) ==>
        pimpl.line.sys.clock + 1_000_000 > old(pimpl.line.sys.clock)
          + (pimpl.timeout.readConstant as int + pimpl.timeout.readMultiplier as int) % 0x1_0000_0000 * 1_000_000
    {
      hide EndsWith;
      ghost var rx := pimpl.line.rx;
      var buffer := new byte[size];
      var readSoFar := 0;
      line, threw, arrived := [], false, |rx|;
      while true
        invariant readSoFar < size && readSoFar <= |rx| && fresh(buffer) && buffer.Length == size
        invariant pimpl.line.rx == rx[readSoFar..] && buffer[..readSoFar] == rx[..readSoFar]
        invariant pimpl.line.sys.clock >= old(pimpl.line.sys.clock) && pimpl.line.sys.faults >= old(pimpl.line.sys.faults)
        invariant forall j :: 0 < j <= readSoFar ==> !EndsWith(rx[..j], eol)
        decreases size - readSoFar
      {
        var got;
        got, threw := ReadByte(buffer, readSoFar, rx);
        if threw {
          return;
        }
        if !got {
          arrived := readSoFar;
          break;
        }
        readSoFar := readSoFar + 1;
        arrived := |rx|;
        if EndsWith(buffer[..readSoFar], eol) {
          break;
        }
        if readSoFar == size {
          break;
        }
      }
      line := buffer[..readSoFar];
      ghost var s := rx[..arrived];
      assert forall j :: 0 <= j <= readSoFar ==> s[..j] == rx[..j];
      if readSoFar > 0 {
        FirstEnd(s, size, eol, 0, readSoFar);
      }
    }

    /** Read all lines within the budget; what falls short of it has been waited for until the countdown
        of a read ran down. */
    method Readlines(size: nat, eol: seq<byte>) returns (lines: seq<seq<byte>>, threw: bool, ghost arrived: nat)
      requires pimpl.isOpen
      modifies pimpl.line`rx, pimpl.line`sys
      ensures !threw ==> arrived <= |old(pimpl.line.rx)|
      ensures !threw ==> lines == AllLines(old(pimpl.line.rx)[..arrived], size, eol)
      ensures !threw ==> pimpl.line.rx == old(pimpl.line.rx)[if size < arrived then size else arrived..]
      ensures threw ==> pimpl.line.sys.faults > old(pimpl.line.sys.faults)
      ensures !threw && arrived < size ==>
        pimpl.line.sys.clock + 1_000_000 > old(pimpl.line.sys.clock)
          + (pimpl.timeout.readConstant as int + pimpl.timeout.readMultiplier as int) % 0x1_0000_0000 * 1_000_000
    {
      hide EndsWith, LinesFrom, AllLines;
      ghost var rx := pimpl.line.rx;
      var buffer := new byte[size];
      var readSoFar, startOfLine := 0, 0;
      lines, threw, arrived := [], false, |rx|;
      StartsEmpty(rx, size, eol);
      while readSoFar < size
        invariant startOfLine <= readSoFar <= size && readSoFar <= |rx| && fresh(buffer) && buffer.Length == size
        invariant pimpl.line.rx == rx[readSoFar..] && buffer[..readSoFar] == rx[..readSoFar]
        invariant pimpl.line.sys.clock >= old(pimpl.line.sys.clock) && pimpl.line.sys.faults >= old(pimpl.line.sys.faults)
        invariant readSoFar < size || size == 0
        invariant size == 0 ==> lines == []
        invariant arrived == |rx|
        invariant forall n :: readSoFar <= n <= |rx| ==> FoundSoFar(rx, n, size, eol, lines, readSoFar, startOfLine)
        decreases size - readSoFar
      {
        var got;
        got, threw := ReadByte(buffer, readSoFar, rx);
        if threw {
          return;
        }
        if !got {
          arrived := readSoFar;
          assert FoundSoFar(rx, arrived, size, eol, lines, readSoFar, startOfLine);
          EndOfStream(rx, size, eol, readSoFar, startOfLine);
          if startOfLine != readSoFar {
            lines := lines + [buffer[startOfLine..readSoFar]];
          }
          return;
        }
        forall n | readSoFar < n <= |rx| {
          FoundByteByByte(rx, n, size, eol, lines, readSoFar, startOfLine);
        }
        readSoFar := readSoFar + 1;
        if EndsWith(buffer[..readSoFar], eol) {
          lines := lines + [buffer[startOfLine..readSoFar]];
          startOfLine := readSoFar;
        }
        if readSoFar == size {
          if startOfLine != readSoFar {
            lines := lines + [buffer[startOfLine..readSoFar]];
          }
          return;
        }
      }
    }
  }
}

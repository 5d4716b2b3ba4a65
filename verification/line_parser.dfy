/**
  The stream line parser (`struct packet_stream_parser`): it holds a
  non-owning slice of the current payload and an accumulation buffer meant
  for a line that continues into the next payload, and cuts lines ending in
  '\n' out of the slice.

  The slice is `None` when its pointer is null; its length is the length of
  the sequence.  The accumulation buffer is modelled by its contents
  (`buff[0 .. buffpos]`); its allocated size and the soft line limit, which
  only logs, play no part in what the parser returns.
 */
module LineParser {
  import opened Common

  const LF: Byte := 10
  const CR: Byte := 13
  const SP: Byte := 32

  datatype Parser = Parser(slice: Option<seq<Byte>>, buffered: seq<Byte>, maxLineSize: nat)

  /** The bytes of the slice; a null slice has none. */
  function SliceBytes(p: Parser): seq<Byte>
  {
    if p.slice.Some? then p.slice.value else []
  }

  /** The invariant the code as written keeps: the accumulation buffer is
      never filled, because the only bytes ever copied into it are the
      `tmp_len` bytes of a slice without '\n', and `tmp_len` is then 0. */
  predicate NothingBuffered(p: Parser)
  {
    p.buffered == []
  }

  /** `packet_stream_parser_alloc`: no slice, nothing buffered.  Allocation
      failure is not modelled. */
  function Alloc(maxLineSize: nat): (r: Parser)
    ensures NothingBuffered(r) && r.slice.None? && r.maxLineSize == maxLineSize
  {
    Parser(None, [], maxLineSize)
  }

  /** `packet_stream_parser_add_payload`: the payload becomes the slice.  The
      flag is the warning logged when the previous slice was not consumed. */
  function AddPayload(p: Parser, payload: seq<Byte>): (r: (Parser, bool))
    ensures r.0.slice == Some(payload) && r.0.buffered == p.buffered && r.0.maxLineSize == p.maxLineSize
    ensures r.1 <==> p.slice.Some?
  {
    (p.(slice := Some(payload)), p.slice.Some?)
  }

  /** `packet_stream_parser_get_remaining`: hand out and clear the slice; with
      a null slice nothing is handed out and the outputs are left alone. */
  function GetRemaining(p: Parser): (r: (Parser, Option<seq<Byte>>))
    ensures r.0.slice.None? && r.0.buffered == p.buffered && r.0.maxLineSize == p.maxLineSize
    ensures r.1 == p.slice
  {
    (p.(slice := None), p.slice)
  }

  // ---------------------------------------------------------------------
  // The scanning loops of packet_stream_parser_get_line
  // ---------------------------------------------------------------------

  /** `memchr` from position `i`: the first `b` at or after `i`. */
  function FindFrom(s: seq<Byte>, b: Byte, i: nat): (r: Option<nat>)
    requires i <= |s|
    ensures r.None? ==> forall j :: i <= j < |s| ==> s[j] != b
    ensures r.Some? ==> i <= r.value < |s| && s[r.value] == b && forall j :: i <= j < r.value ==> s[j] != b
    decreases |s| - i
  {
    if i == |s| then None
    else if s[i] == b then Some(i)
    else FindFrom(s, b, i + 1)
  }

  /** The first occurrence is the one `memchr` finds. */
  lemma {:induction false} FindFirst(s: seq<Byte>, b: Byte, k: nat)
    requires k < |s| && s[k] == b && forall j :: 0 <= j < k ==> s[j] != b
    ensures FindFrom(s, b, 0) == Some(k)
  {
    var r := FindFrom(s, b, 0);
    assert r.Some? by {
      assert s[k] == b;
    }
    assert s[k] == b && s[r.value] == b;
  }

  /** The length of the line before the '\n' at `k`, less one '\r' right
      before it. */
  function LineLength(s: seq<Byte>, k: nat): (n: nat)
    requires k < |s|
    ensures n <= k && (n < k <==> k > 0 && s[k - 1] == CR)
  {
    if k > 0 && s[k - 1] == CR then k - 1 else k
  }

  /** The leading-space loop: `pload` moves from `off` past spaces while
      `tmp_len`, starting at `n`, is not 0.  It reads the byte at `pload`
      before testing `tmp_len`, so that byte must exist. */
  function SkipSpaces(s: seq<Byte>, off: nat, n: nat): (r: nat)
    requires off + n < |s|
    ensures off <= r <= off + n
    ensures forall j :: off <= j < r ==> s[j] == SP
    ensures r < off + n ==> s[r] != SP
    decreases n
  {
    if s[off] == SP && n > 0 then SkipSpaces(s, off + 1, n - 1) else off
  }

  /** The trailing-space loop as written: it tests `pload[tmp_len]`, the byte
      just past the line, instead of its last byte. */
  function TrimBackAsWritten(s: seq<Byte>, off: nat, n: nat): (r: nat)
    requires off + n < |s|
    ensures r <= n
    ensures forall j :: off + r < j <= off + n ==> s[j] == SP
    ensures 0 < r ==> s[off + r] != SP
    decreases n
  {
    if s[off + n] == SP && n > 0 then TrimBackAsWritten(s, off, n - 1) else n
  }

  /** What `packet_stream_parser_get_line` writes to its outputs. */
  datatype Out =
    | Untouched                // `*line` and `*len` are not written
    | NullLine                 // `*line = NULL`, `*len = 0`: no line yet
    | Line(bytes: seq<Byte>)   // a line

  datatype LineResult = LineResult(code: Code, parser: Parser, out: Out)

  /** `packet_stream_parser_get_line`.  `outputsGiven` is false when `line` or
      `len` is null.  A failing `realloc` is not modelled. */
  function GetLine(p: Parser, outputsGiven: bool): (r: LineResult)
    ensures !outputsGiven ==> r == LineResult(PomErr, p, Untouched)
    ensures outputsGiven ==> r.code == PomOk
    ensures NothingBuffered(p) ==> NothingBuffered(r.parser)
    ensures r.parser.maxLineSize == p.maxLineSize
    ensures r.out.Line? ==> && LF !in r.out.bytes
                            && (r.out.bytes == [] || r.out.bytes[0] != SP)
  {
    if !outputsGiven then LineResult(PomErr, p, Untouched)
    else
      var pl := SliceBytes(p);
      var lf := FindFrom(pl, LF, 0);
      var tmpLen := if lf.Some? then LineLength(pl, lf.value) else 0;
      var buffered := if p.buffered != [] || lf.None? then p.buffered + pl[..tmpLen] else p.buffered;
      if lf.None? then
        LineResult(PomOk, p.(slice := None, buffered := buffered), NullLine)
      else if buffered != [] then
        // returns at once: the slice is not advanced and the outputs are not set
        LineResult(PomOk, p.(buffered := []), Untouched)
      else
        var k := lf.value;
        var rest := pl[k + 1..];
        var start := SkipSpaces(pl, 0, tmpLen);
        var len := TrimBackAsWritten(pl, start, tmpLen - start);
        var line := pl[start..start + len];
        assert forall j :: 0 <= j < |line| ==> line[j] == pl[start + j] && start + j < k;
        LineResult(PomOk, p.(slice := if rest == [] then None else Some(rest)), Line(line))
  }

  // ---------------------------------------------------------------------
  // Reference definitions and properties
  // ---------------------------------------------------------------------

  /** A line without one final '\r'. */
  function StripCR(x: seq<Byte>): seq<Byte>
  {
    if x != [] && x[|x| - 1] == CR then x[..|x| - 1] else x
  }

  /** A line without its leading spaces. */
  function TrimLeft(x: seq<Byte>): seq<Byte>
  {
    if x != [] && x[0] == SP then TrimLeft(x[1..]) else x
  }

  /** A line without its trailing spaces. */
  function TrimRight(x: seq<Byte>): seq<Byte>
  {
    if x != [] && x[|x| - 1] == SP then TrimRight(x[..|x| - 1]) else x
  }

  /** The leading-space loop computes `TrimLeft`. */
  lemma {:induction false} SkipSpacesTrims(s: seq<Byte>, off: nat, n: nat)
    requires off + n < |s|
    ensures s[SkipSpaces(s, off, n)..off + n] == TrimLeft(s[off..off + n])
    decreases n
  {
    if s[off] == SP && n > 0 {
      SkipSpacesTrims(s, off + 1, n - 1);
      assert s[off..off + n][1..] == s[off + 1..off + n];
    }
  }

  /** The trailing-space loop as written never removes anything: at the start
      it looks at the '\r' or '\n' that ends the line. */
  lemma {:induction false} TrimBackInert(s: seq<Byte>, off: nat, n: nat)
    requires off + n < |s| && s[off + n] != SP
    ensures TrimBackAsWritten(s, off, n) == n
  {
  }

  /** On a slice whose first '\n' is at `k`, with nothing buffered, the line
      handed out is the bytes before the '\n', less one '\r' and the leading
      spaces; the slice moves past the '\n' and becomes null when that was its
      last byte. */
  lemma {:induction false} GetLineTakesLine(p: Parser, k: nat)
    requires NothingBuffered(p) && p.slice.Some?
    requires var pl := p.slice.value;
      k < |pl| && pl[k] == LF && forall j :: 0 <= j < k ==> pl[j] != LF
    ensures var pl := p.slice.value;
      var r := GetLine(p, true);
      && r.out == Line(TrimLeft(StripCR(pl[..k])))
      && r.parser.slice == (if k + 1 == |pl| then None else Some(pl[k + 1..]))
      && pl == pl[..k] + [LF] + pl[k + 1..]
  {
    var pl := p.slice.value;
    FindFirst(pl, LF, k);
    var tmpLen := LineLength(pl, k);
    var start := SkipSpaces(pl, 0, tmpLen);
    assert pl[tmpLen] == CR || pl[tmpLen] == LF;
    TrimBackInert(pl, start, tmpLen - start);
    SkipSpacesTrims(pl, 0, tmpLen);
    assert pl[0..tmpLen] == StripCR(pl[..k]);
    assert pl == pl[..k] + [LF] + pl[k + 1..];
  }

  /** A slice without '\n' gives no line and is dropped whole, with nothing
      kept in the buffer: the start of a line split across payloads is
      lost. */
  lemma {:induction false} GetLineWithoutNewline(p: Parser)
    requires NothingBuffered(p) && LF !in SliceBytes(p)
    ensures GetLine(p, true) == LineResult(PomOk, p.(slice := None), NullLine)
  {
    var pl := SliceBytes(p);
    assert forall j :: 0 <= j < |pl| ==> pl[j] != LF;
  }

  /** A payload added and then asked for back comes back whole, and the slice
      is cleared. */
  lemma {:induction false} AddThenRemaining(p: Parser, payload: seq<Byte>)
    ensures var r := GetRemaining(AddPayload(p, payload).0);
      r.1 == Some(payload) && r.0 == p.(slice := None)
  {
  }

  /** From a freshly allocated parser the accumulation buffer stays empty
      whatever sequence of calls follows, so the branch of
      `packet_stream_parser_get_line` that returns a buffered line is never
      taken. */
  lemma {:induction false} BufferedBranchDead(p: Parser)
    requires NothingBuffered(p)
    ensures GetLine(p, true).out != Untouched
  {
  }

  // ---------------------------------------------------------------------
  // Lines split across payloads
  // ---------------------------------------------------------------------

  /** The first line of a slice: as written, the bytes of an earlier payload
      without '\n' are gone, so a line split across two payloads is handed out
      without its first part. */
  lemma {:induction false} PartialLineLost(p: Parser, a: seq<Byte>, b: seq<Byte>, k: nat)
    requires NothingBuffered(p) && LF !in a
    requires k < |b| && b[k] == LF && forall j :: 0 <= j < k ==> b[j] != LF
    ensures var r1 := GetLine(AddPayload(p, a).0, true);
      var r2 := GetLine(AddPayload(r1.parser, b).0, true);
      && r1.out == NullLine
      && r2.out == Line(TrimLeft(StripCR(b[..k])))
  {
    var p1 := AddPayload(p, a).0;
    GetLineWithoutNewline(p1);
    var r1 := GetLine(p1, true);
    GetLineTakesLine(AddPayload(r1.parser, b).0, k);
  }

  /** "BC" then "D\n" gives the line "D"; the line was "BCD". */
  lemma {:induction false} SplitLineExample()
    ensures var r1 := GetLine(AddPayload(Alloc(100), [66, 67]).0, true);
      var r2 := GetLine(AddPayload(r1.parser, [68, 10]).0, true);
      r1.out == NullLine && r2.out == Line([68])
  {
    PartialLineLost(Alloc(100), [66, 67], [68, 10], 1);
    assert TrimLeft(StripCR([68])) == [68];
  }

  /** "A \n" gives the line "A " with its trailing space. */
  lemma {:induction false} TrailingSpaceKept()
    ensures GetLine(AddPayload(Alloc(100), [65, 32, 10]).0, true).out == Line([65, 32])
  {
    GetLineTakesLine(AddPayload(Alloc(100), [65, 32, 10]).0, 2);
    assert [65, 32, 10][..2] == [65, 32];
    assert TrimLeft(StripCR([65, 32])) == [65, 32];
  }

  // ---------------------------------------------------------------------
  // The intended parser
  // ---------------------------------------------------------------------

  /** A line without a final '\r' and without leading and trailing spaces. */
  function Clean(x: seq<Byte>): seq<Byte>
  {
    TrimRight(TrimLeft(StripCR(x)))
  }

  /** `packet_stream_parser_get_line` as intended: a slice without '\n' is
      kept in the accumulation buffer, and the next '\n' ends the line made of
      the buffer and the slice up to it, cleaned at both ends. */
  function GetLineFixed(p: Parser, outputsGiven: bool): (r: LineResult)
    ensures !outputsGiven ==> r == LineResult(PomErr, p, Untouched)
    ensures outputsGiven ==> r.code == PomOk && r.out != Untouched
    ensures r.parser.maxLineSize == p.maxLineSize
    ensures r.out.NullLine? ==> r.parser.buffered == p.buffered + SliceBytes(p) && r.parser.slice.None?
    ensures r.out.Line? ==> r.parser.buffered == []
  {
    if !outputsGiven then LineResult(PomErr, p, Untouched)
    else
      var pl := SliceBytes(p);
      match FindFrom(pl, LF, 0)
      case None => LineResult(PomOk, p.(slice := None, buffered := p.buffered + pl), NullLine)
      case Some(k) =>
        var rest := pl[k + 1..];
        LineResult(PomOk, p.(slice := if rest == [] then None else Some(rest), buffered := []),
                   Line(Clean(p.buffered + pl[..k])))
  }

  /** A cleaned line has no '\n' when it had none, and no space at either
      end. */
  lemma {:induction false} CleanTrims(x: seq<Byte>)
    ensures var c := Clean(x);
      c == [] || (c[0] != SP && c[|c| - 1] != SP)
  {
    TrimLeftStarts(StripCR(x));
    TrimRightKeepsStart(TrimLeft(StripCR(x)));
  }

  lemma {:induction false} TrimLeftStarts(x: seq<Byte>)
    ensures var t := TrimLeft(x); t == [] || t[0] != SP
  {
    if x != [] && x[0] == SP {
      TrimLeftStarts(x[1..]);
    }
  }

  /** Trimming the end keeps the first byte, and leaves no trailing space. */
  lemma {:induction false} TrimRightKeepsStart(x: seq<Byte>)
    ensures var t := TrimRight(x);
      && (t == [] || t[|t| - 1] != SP)
      && (t != [] ==> t[0] == x[0])
  {
    if x != [] && x[|x| - 1] == SP {
      TrimRightKeepsStart(x[..|x| - 1]);
    }
  }

  /** The intended parser does not care where the payloads are cut: a payload
      without '\n' followed by another gives, after the second, the same
      line and the same parser as the two together in one payload. */
  lemma {:induction false} FixedJoinsPayloads(p: Parser, a: seq<Byte>, b: seq<Byte>)
    requires LF !in a
    ensures var r1 := GetLineFixed(AddPayload(p, a).0, true);
      var r2 := GetLineFixed(AddPayload(r1.parser, b).0, true);
      var whole := GetLineFixed(AddPayload(p, a + b).0, true);
      r1.out == NullLine && r2 == whole
  {
    FixedKeepsPartial(p, a);
    var q := Parser(Some(b), p.buffered + a, p.maxLineSize);
    var w := Parser(Some(a + b), p.buffered, p.maxLineSize);
    assert AddPayload(GetLineFixed(AddPayload(p, a).0, true).parser, b).0 == q;
    assert AddPayload(p, a + b).0 == w;
    FindInJoin(a, b);
    match FindFrom(b, LF, 0)
    case None =>
      assert q.buffered + b == w.buffered + (a + b);
      SameWithoutLine(q, w, b, a + b);
    case Some(k) =>
      JoinCut(p.buffered, a, b, k);
      SameLine(q, w, b, a + b, k, |a| + k);
  }

  /** Two parsers whose slices hold no '\n' and that hold the same bytes
      altogether end up the same. */
  lemma {:induction false} SameWithoutLine(q: Parser, w: Parser, qs: seq<Byte>, ws: seq<Byte>)
    requires q.slice == Some(qs) && w.slice == Some(ws) && q.maxLineSize == w.maxLineSize
    requires FindFrom(qs, LF, 0).None? && FindFrom(ws, LF, 0).None?
    requires q.buffered + qs == w.buffered + ws
    ensures GetLineFixed(q, true) == GetLineFixed(w, true)
  {
  }

  /** Two parsers with the same bytes up to the first '\n' of their slices,
      and the same bytes after it, give the same line and end up the same. */
  lemma {:induction false} SameLine(q: Parser, w: Parser, qs: seq<Byte>, ws: seq<Byte>, k: nat, j: nat)
    requires q.slice == Some(qs) && w.slice == Some(ws) && q.maxLineSize == w.maxLineSize
    requires FindFrom(qs, LF, 0) == Some(k) && FindFrom(ws, LF, 0) == Some(j)
    requires q.buffered + qs[..k] == w.buffered + ws[..j] && qs[k + 1..] == ws[j + 1..]
    ensures GetLineFixed(q, true) == GetLineFixed(w, true)
  {
  }

  /** Cutting a join inside its second part. */
  lemma {:induction false} JoinCut(x: seq<Byte>, a: seq<Byte>, b: seq<Byte>, k: nat)
    requires k < |b|
    ensures (x + a) + b[..k] == x + (a + b)[..|a| + k] && (a + b)[|a| + k + 1..] == b[k + 1..]
  {
    assert (a + b)[..|a| + k] == a + b[..k];
  }

  /** A slice without '\n' goes whole into the accumulation buffer. */
  lemma {:induction false} FixedKeepsPartial(p: Parser, a: seq<Byte>)
    requires LF !in a
    ensures GetLineFixed(AddPayload(p, a).0, true)
            == LineResult(PomOk, p.(slice := None, buffered := p.buffered + a), NullLine)
  {
    assert forall j :: 0 <= j < |a| ==> a[j] != LF;
    assert FindFrom(a, LF, 0).None?;
  }

  /** Behind a run without '\n', the first '\n' of a join is the first one
      of the second part. */
  lemma {:induction false} FindInJoin(a: seq<Byte>, b: seq<Byte>)
    requires LF !in a
    ensures FindFrom(b, LF, 0).None? ==> FindFrom(a + b, LF, 0).None?
    ensures FindFrom(b, LF, 0).Some? ==> FindFrom(a + b, LF, 0) == Some(|a| + FindFrom(b, LF, 0).value)
  {
    var ab := a + b;
    match FindFrom(b, LF, 0)
    case None =>
      assert forall j :: 0 <= j < |ab| ==> ab[j] != LF by {
        forall j | 0 <= j < |ab| ensures ab[j] != LF {
          if j >= |a| {
            assert ab[j] == b[j - |a|];
          }
        }
      }
      assert FindFrom(ab, LF, 0).None?;
    case Some(k) =>
      assert ab[|a| + k] == LF;
      forall j | 0 <= j < |a| + k ensures ab[j] != LF {
        if j >= |a| {
          assert ab[j] == b[j - |a|];
        }
      }
      FindFirst(ab, LF, |a| + k);
  }

  /** "A\r\nBC" then "D\n" gives the lines "A" and "BCD". */
  lemma {:induction false} FixedSplitLineExample()
    ensures var r1 := GetLineFixed(AddPayload(Alloc(100), [65, 13, 10, 66, 67]).0, true);
      var r2 := GetLineFixed(r1.parser, true);
      var r3 := GetLineFixed(AddPayload(r2.parser, [68, 10]).0, true);
      r1.out == Line([65]) && r2.out == NullLine && r3.out == Line([66, 67, 68])
  {
    var s: seq<Byte> := [65, 13, 10, 66, 67];
    FindFirst(s, LF, 2);
    assert s[..2] == [65, 13] && s[3..] == [66, 67];
    assert StripCR([65, 13]) == [65];
    var r1 := GetLineFixed(AddPayload(Alloc(100), s).0, true);
    assert FindFrom([66, 67], LF, 0).None?;
    var r2 := GetLineFixed(r1.parser, true);
    var t: seq<Byte> := [68, 10];
    FindFirst(t, LF, 1);
    assert r2.parser.buffered + t[..1] == [66, 67, 68];
  }

  /** "A \n" gives the line "A" in the intended parser. */
  lemma {:induction false} FixedTrailingSpace()
    ensures GetLineFixed(AddPayload(Alloc(100), [65, 32, 10]).0, true).out == Line([65])
  {
    var s: seq<Byte> := [65, 32, 10];
    FindFirst(s, LF, 2);
    assert Alloc(100).buffered + s[..2] == [65, 32];
    assert StripCR([65, 32]) == [65, 32] && TrimLeft([65, 32]) == [65, 32];
    assert TrimRight([65]) == [65];
    assert TrimRight([65, 32]) == [65];
  }
}

/** The header scanner: one pass over the buffer, header block by header
    block, collecting entries until the end of the buffer or an all-zero name
    field, and giving up on the first malformed header. */
module Scanner {
  import opened TarTypes
  import opened Text
  import opened Radix
  import opened Archive

  /** How a parse ends: an archive, one of the library's errors, or a panic
      (the unchecked payload slice indexing past the end of the buffer). */
  datatype Outcome<T> = Success(value: T) | Failure(error: TarError) | Panic

  /** The file name of the header at offset h: the 100-byte field decoded
      lossily, trailing U+0000 removed. */
  function NameAt(buf: seq<byte>, h: nat): (name: string)
    requires h + TarHeaderLen <= |buf|
    ensures |name| <= FilenameLen
    ensures name == [] || name[|name| - 1] != '\0'
  {
    TrimEnd(Utf8Lossy(buf[h .. h + FilenameLen]), '\0')
  }

  /** The raw 12-byte size field of the header at offset h. */
  function SizeField(buf: seq<byte>, h: nat): (f: seq<byte>)
    requires h + TarHeaderLen <= |buf|
  {
    buf[h + FileSizeOffset .. h + FileSizeOffset + FileSizeLen]
  }

  /** The size of the header at offset h: the size field decoded lossily,
      trailing U+0000 removed, read as a base-8 usize. */
  function SizeAt(buf: seq<byte>, h: nat): (r: ParsedInt)
    requires h + TarHeaderLen <= |buf|
    ensures r.Value? ==> r.n <= UsizeMax
    ensures r == IntError(Empty) <==> forall k | 0 <= k < FileSizeLen :: SizeField(buf, h)[k] == 0
  {
    var f := SizeField(buf, h);
    LossyAllNul(f);
    TrimEndEmpty(Utf8Lossy(f), '\0');
    FromStrRadix8(TrimEnd(Utf8Lossy(f), '\0'))
  }

  /** Unsigned `div_ceil`: the quotient rounded up. */
  function DivCeil(n: nat, d: nat): (q: nat)
    requires d > 0
    ensures n <= q * d < n + d
  {
    if n % d > 0 then n / d + 1 else n / d
  }

  /** How far the cursor moves past an entry of `size` bytes: its header
      block and the payload rounded up to whole blocks, which is the least
      multiple of 512 that holds both. */
  function Advance(size: nat): (step: nat)
    ensures step % 512 == 0
    ensures 512 + size <= step < 1024 + size
  {
    assert TarHeaderLen == 512 && FileEntryPaddingBase == 512;
    TarHeaderLen + DivCeil(size, FileEntryPaddingBase) * FileEntryPaddingBase
  }

  /** What one pass of the loop body decides at the cursor: an entry to
      collect, the all-zero name that ends the archive, an error to return,
      or a payload slice that overruns the buffer. */
  datatype Step = Yield(entry: Entry) | Terminator | Broken(error: TarError) | Overrun

  /** The loop body of `parse_tar` at a cursor inside the buffer: check that
      a whole header block follows, read the name, read the size, cut out
      the payload. */
  function HeaderStep(buf: seq<byte>, offset: nat): (s: Step)
    ensures s.Broken? ==> s.error == DamagedHeader || s.error == SizeUnreadable
    ensures s.Yield? ==> s.entry.variant == NormalFile && s.entry.filename != [] &&
                         |s.entry.payload| == s.entry.size &&
                         offset + TarHeaderLen + s.entry.size <= |buf|
  {
    if offset + TarHeaderLen >= |buf| then Broken(DamagedHeader)
    else
      var filename := NameAt(buf, offset);
      if filename == [] then Terminator
      else match SizeAt(buf, offset)
        case IntError(_) => Broken(SizeUnreadable)
        case Value(size) =>
          if offset + TarHeaderLen + size > |buf| then Overrun
          else Yield(Entry(NormalFile, filename, size, buf[offset + TarHeaderLen .. offset + TarHeaderLen + size]))
  }

  /** Entries collected earlier, in front of whatever the rest of the scan gives;
      an error or a panic discards them. */
  function Prepend(es: seq<Entry>, r: Outcome<seq<Entry>>): Outcome<seq<Entry>> {
    match r
    case Success(rest) => Success(es + rest)
    case Failure(e) => Failure(e)
    case Panic => Panic
  }

  /** The loop of `parse_tar` from the cursor `offset` on, for any loop body:
      stop at the end of the buffer, otherwise run the body and either stop
      as it says or collect its entry and advance past it. */
  function Walk(body: (seq<byte>, nat) -> Step, buf: seq<byte>, offset: nat): Outcome<seq<Entry>>
    decreases |buf| - offset
  {
    if offset >= |buf| then Success([])
    else match body(buf, offset)
      case Terminator => Success([])
      case Broken(e) => Failure(e)
      case Overrun => Panic
      case Yield(e) => Prepend([e], Walk(body, buf, offset + Advance(e.size)))
  }

  /** The length check in front of the loop, then the loop from offset 0,
      for any loop body. */
  function Run(body: (seq<byte>, nat) -> Step, buf: seq<byte>): Outcome<Tar> {
    if |buf| < TarHeaderLen then Failure(NotATarFile)
    else match Walk(body, buf, 0)
      case Success(es) => Success(Tar(es))
      case Failure(e) => Failure(e)
      case Panic => Panic
  }

  /** `parse_tar` as a function of the buffer. */
  function Parse(buf: seq<byte>): Outcome<Tar> {
    Run(HeaderStep, buf)
  }

  lemma PrependNothing(r: Outcome<seq<Entry>>)
    ensures Prepend([], r) == r
  {
    if r.Success? {
      assert [] + r.value == r.value;
    }
  }

  lemma PrependTwice(a: seq<Entry>, b: seq<Entry>, r: Outcome<seq<Entry>>)
    ensures Prepend(a, Prepend(b, r)) == Prepend(a + b, r)
  {
    if r.Success? {
      assert a + (b + r.value) == (a + b) + r.value;
    }
  }

  /** `parse_tar`: the cursor walks the buffer; each header either ends the
      scan, aborts it, or yields one entry and moves the cursor past the
      entry's padded payload. */
  method ParseTar(payload: seq<byte>) returns (r: Outcome<Tar>)
    ensures r == Parse(payload)
  {
    if |payload| < TarHeaderLen {
      return Failure(NotATarFile);
    }
    var entries: seq<Entry> := [];
    var entryOffset: nat := 0;
    while true
      invariant Chain(HeaderStep, payload, 0, entries, entryOffset)
      decreases |payload| - entryOffset
    {
      if entryOffset >= |payload| {
        EndOfArchive(payload, entries, entryOffset);
        break;
      }
      if entryOffset + TarHeaderLen >= |payload| {
        FirstBadHeaderDecides(payload, entries, entryOffset);
        return Failure(DamagedHeader);
      }
      var filename := NameAt(payload, entryOffset);
      if filename == [] {
        EndOfArchive(payload, entries, entryOffset);
        break;
      }
      var parsed := SizeAt(payload, entryOffset);
      if parsed.IntError? {
        FirstBadHeaderDecides(payload, entries, entryOffset);
        return Failure(SizeUnreadable);
      }
      var entryDataSize := parsed.n;
      if entryOffset + TarHeaderLen + entryDataSize > |payload| {
        FirstBadHeaderDecides(payload, entries, entryOffset);
        return Panic;
      }
      var data := payload[entryOffset + TarHeaderLen .. entryOffset + TarHeaderLen + entryDataSize];
      var entry := Entry(NormalFile, filename, entryDataSize, data);
      var nextOffset := entryOffset + Advance(entryDataSize);
      NextHeader(payload, entries, entryOffset, filename, entryDataSize, nextOffset);
      entries := entries + [entry];
      entryOffset := nextOffset;
    }
    return Success(Tar(entries));
  }

  // ---------------------------------------------------------------------
  // The loop, for any body: runs of collected entries

  /** Where the header of entry i sits, counted from the first header: the
      advances past every entry before it. */
  function Span(es: seq<Entry>, i: nat): nat
    requires i <= |es|
    decreases i
  {
    if i == 0 then 0 else Advance(es[0].size) + Span(es[1..], i - 1)
  }

  /** The header of entry i + 1 is one advance past that of entry i. */
  lemma {:induction false} SpanStep(es: seq<Entry>, i: nat)
    requires i < |es|
    ensures Span(es, i + 1) == Span(es, i) + Advance(es[i].size)
    decreases i
  {
    if i > 0 {
      SpanStep(es[1..], i - 1);
    }
  }

  /** Header offsets are multiples of 512 and at least one block apart. */
  lemma {:induction false} SpanGrows(es: seq<Entry>, i: nat, j: nat)
    requires i <= j <= |es|
    ensures Span(es, j) % 512 == 0
    ensures Span(es, i) + 512 * (j - i) <= Span(es, j)
    decreases j
  {
    if j > 0 {
      SpanStep(es, j - 1);
      if i < j {
        SpanGrows(es, i, j - 1);
      } else {
        SpanGrows(es, j - 1, j - 1);
      }
    }
  }

  /** From off, the body yields the entries of es one after the other,
      each header one advance past the one before, and the cursor then
      stands at h. */
  ghost predicate Chain(body: (seq<byte>, nat) -> Step, buf: seq<byte>, off: nat, es: seq<Entry>, h: nat)
    decreases |es|
  {
    if es == [] then h == off
    else off < |buf| && body(buf, off) == Yield(es[0]) &&
         Chain(body, buf, off + Advance(es[0].size), es[1..], h)
  }

  /** The body yields an entry at h. */
  ghost predicate Yields(body: (seq<byte>, nat) -> Step, buf: seq<byte>, h: nat) {
    h < |buf| && body(buf, h).Yield?
  }

  /** The loop ends cleanly at h: the buffer is used up or the body finds
      the terminator. */
  ghost predicate Halts(body: (seq<byte>, nat) -> Step, buf: seq<byte>, h: nat) {
    h >= |buf| || body(buf, h) == Terminator
  }

  /** In a run, entry i comes from the header Span(es, i) past its start. */
  lemma {:induction false} ChainAt(body: (seq<byte>, nat) -> Step, buf: seq<byte>, off: nat, es: seq<Entry>, h: nat, i: nat)
    requires Chain(body, buf, off, es, h)
    requires i < |es|
    ensures off + Span(es, i) < |buf| && body(buf, off + Span(es, i)) == Yield(es[i])
    decreases i
  {
    if i > 0 {
      ChainAt(body, buf, off + Advance(es[0].size), es[1..], h, i - 1);
    }
  }

  /** After a run, the loop's outcome is the run's entries in front of
      whatever the loop gives from the cursor at its end. */
  lemma {:induction false} WalkAfterChain(body: (seq<byte>, nat) -> Step, buf: seq<byte>, off: nat, es: seq<Entry>, h: nat)
    requires Chain(body, buf, off, es, h)
    ensures Walk(body, buf, off) == Prepend(es, Walk(body, buf, h))
    decreases |es|
  {
    if es == [] {
      PrependNothing(Walk(body, buf, h));
    } else {
      var e := es[0];
      WalkAfterChain(body, buf, off + Advance(e.size), es[1..], h);
      PrependTwice([e], es[1..], Walk(body, buf, h));
      assert [e] + es[1..] == es;
    }
  }

  /** Every run of the loop is a run of yielded entries up to a cursor where
      the body does not yield, and the outcome is decided there. */
  lemma {:induction false} WalkReachesStop(body: (seq<byte>, nat) -> Step, buf: seq<byte>, off: nat)
    ensures exists es, h :: Chain(body, buf, off, es, h) && !Yields(body, buf, h) &&
                            Walk(body, buf, off) == Prepend(es, Walk(body, buf, h))
    decreases |buf| - off
  {
    if Yields(body, buf, off) {
      var e := body(buf, off).entry;
      var next := off + Advance(e.size);
      WalkReachesStop(body, buf, next);
      var es, h :| Chain(body, buf, next, es, h) && !Yields(body, buf, h) &&
                   Walk(body, buf, next) == Prepend(es, Walk(body, buf, h));
      assert ([e] + es)[1..] == es;
      assert Chain(body, buf, off, [e] + es, h);
      PrependTwice([e], es, Walk(body, buf, h));
    } else {
      assert Chain(body, buf, off, [], off);
      PrependNothing(Walk(body, buf, off));
    }
  }

  /** An outcome with one entry put in front is a success with es exactly
      when es starts with that entry and the rest succeeded with the others. */
  lemma PrependOne(e: Entry, r: Outcome<seq<Entry>>, es: seq<Entry>)
    ensures Prepend([e], r) == Success(es) <==> es != [] && es[0] == e && r == Success(es[1..])
  {
    if r.Success? {
      assert ([e] + r.value)[0] == e;
      assert ([e] + r.value)[1..] == r.value;
      if es != [] && es[0] == e && r == Success(es[1..]) {
        assert [e] + es[1..] == es;
      }
    }
  }

  /** The loop succeeds with es exactly when the body yields es from off
      and the loop then ends cleanly. */
  lemma {:induction false} WalkSucceeds(body: (seq<byte>, nat) -> Step, buf: seq<byte>, off: nat, es: seq<Entry>)
    ensures Walk(body, buf, off) == Success(es) <==>
            Chain(body, buf, off, es, off + Span(es, |es|)) && Halts(body, buf, off + Span(es, |es|))
    decreases |buf| - off
  {
    if Yields(body, buf, off) {
      var e := body(buf, off).entry;
      var next := off + Advance(e.size);
      var rest := Walk(body, buf, next);
      assert Walk(body, buf, off) == Prepend([e], rest);
      PrependOne(e, rest, es);
      if es == [] {
        assert !Halts(body, buf, off);
      } else {
        var h := off + Span(es, |es|);
        assert h == next + Span(es[1..], |es[1..]|) || es[0] != e;
        WalkSucceeds(body, buf, next, es[1..]);
      }
    } else if es != [] {
      assert !Chain(body, buf, off, es, off + Span(es, |es|));
    }
  }

  /** A run grows by one entry when the body yields at its end. */
  lemma {:induction false} ChainExtend(body: (seq<byte>, nat) -> Step, buf: seq<byte>, off: nat, es: seq<Entry>, h: nat, e: Entry, next: nat)
    requires Chain(body, buf, off, es, h)
    requires h < |buf| && body(buf, h) == Yield(e)
    requires next == h + Advance(e.size)
    ensures Chain(body, buf, off, es + [e], next)
    decreases |es|
  {
    if es == [] {
      assert ([] + [e])[1..] == [];
    } else {
      ChainExtend(body, buf, off + Advance(es[0].size), es[1..], h, e, next);
      assert (es + [e])[1..] == es[1..] + [e];
    }
  }

  /** The loop yields nothing at a cursor inside the buffer exactly when
      the body finds the terminator there. */
  lemma WalkEndsAt(body: (seq<byte>, nat) -> Step, buf: seq<byte>, off: nat)
    requires off < |buf|
    ensures Walk(body, buf, off) == Success([]) <==> body(buf, off) == Terminator
  {
    if body(buf, off).Yield? {
      var e := body(buf, off).entry;
      PrependOne(e, Walk(body, buf, off + Advance(e.size)), []);
    }
  }

  /** The whole run, length check included, succeeds with t exactly when
      the buffer holds a block, the body yields t's entries from offset 0,
      and the loop then ends cleanly. */
  lemma RunDecodes(body: (seq<byte>, nat) -> Step, buf: seq<byte>, t: Tar)
    ensures Run(body, buf) == Success(t) <==>
            |buf| >= TarHeaderLen &&
            Chain(body, buf, 0, t.entries, Span(t.entries, |t.entries|)) &&
            Halts(body, buf, Span(t.entries, |t.entries|))
  {
    WalkSucceeds(body, buf, 0, t.entries);
  }

  /** Entry i of a successful run is what the body yields at Span(es, i). */
  lemma RunEntry(body: (seq<byte>, nat) -> Step, buf: seq<byte>, t: Tar, i: nat)
    requires Run(body, buf) == Success(t)
    requires i < |t.entries|
    ensures Span(t.entries, i) < |buf| && body(buf, Span(t.entries, i)) == Yield(t.entries[i])
  {
    RunDecodes(body, buf, t);
    ChainAt(body, buf, 0, t.entries, Span(t.entries, |t.entries|), i);
  }

  /** After a run from offset 0, what the body says at the run's end
      decides the outcome, and an error there discards the run. */
  lemma RunAfterChain(body: (seq<byte>, nat) -> Step, buf: seq<byte>, es: seq<Entry>, h: nat)
    requires |buf| >= TarHeaderLen
    requires Chain(body, buf, 0, es, h)
    ensures Halts(body, buf, h) ==> Run(body, buf) == Success(Tar(es))
    ensures h < |buf| && body(buf, h).Broken? ==> Run(body, buf) == Failure(body(buf, h).error)
    ensures h < |buf| && body(buf, h) == Overrun ==> Run(body, buf) == Panic
  {
    WalkAfterChain(body, buf, 0, es, h);
    if Halts(body, buf, h) {
      assert es + [] == es;
    }
  }

  /** A run past the length check fails only with an error that the body
      reported at the end of a run of entries. */
  lemma RunFails(body: (seq<byte>, nat) -> Step, buf: seq<byte>, err: TarError)
    requires |buf| >= TarHeaderLen
    requires Run(body, buf) == Failure(err)
    ensures exists es, h: nat :: Chain(body, buf, 0, es, h) && h < |buf| && body(buf, h) == Broken(err)
  {
    WalkReachesStop(body, buf, 0);
    var es, h :| Chain(body, buf, 0, es, h) && !Yields(body, buf, h) &&
                 Walk(body, buf, 0) == Prepend(es, Walk(body, buf, h));
    assert Walk(body, buf, h) == Failure(err);
  }

  // ---------------------------------------------------------------------
  // What `parse_tar` returns

  /** The header at h is complete, names a file, has a readable size whose
      payload fits in the buffer, and e is the entry it describes. */
  ghost predicate HeaderDecodes(buf: seq<byte>, h: nat, e: Entry) {
    && h + TarHeaderLen < |buf|
    && NameAt(buf, h) != []
    && SizeAt(buf, h) == Value(e.size)
    && h + TarHeaderLen + e.size <= |buf|
    && e == Entry(NormalFile, NameAt(buf, h), e.size, buf[h + TarHeaderLen .. h + TarHeaderLen + e.size])
  }

  /** The loop body yields an entry exactly at a header that decodes to it. */
  lemma HeaderStepYields(buf: seq<byte>, h: nat, e: Entry)
    ensures HeaderStep(buf, h) == Yield(e) <==> HeaderDecodes(buf, h, e)
  {
  }

  /** `parse_tar` returns an archive exactly when the buffer holds at least
      one block, the headers from offset 0 decode one after the other to the
      archive's entries, and after the last one the buffer is used up or an
      empty name follows. */
  lemma ParseDecodes(buf: seq<byte>, t: Tar)
    ensures Parse(buf) == Success(t) <==>
            |buf| >= TarHeaderLen &&
            Chain(HeaderStep, buf, 0, t.entries, Span(t.entries, |t.entries|)) &&
            Halts(HeaderStep, buf, Span(t.entries, |t.entries|))
  {
    RunDecodes(HeaderStep, buf, t);
  }

  /** Every entry of a parsed archive comes from a header at a multiple of
      512 that decodes to it: a NormalFile with the header's non-empty name,
      its readable size, and the `size` bytes right after the header. */
  lemma ParsedEntries(buf: seq<byte>, t: Tar, i: nat)
    requires Parse(buf) == Success(t)
    requires i < |t.entries|
    ensures Span(t.entries, i) % 512 == 0
    ensures HeaderDecodes(buf, Span(t.entries, i), t.entries[i])
  {
    RunEntry(HeaderStep, buf, t, i);
    SpanGrows(t.entries, i, i);
    HeaderStepYields(buf, Span(t.entries, i), t.entries[i]);
  }

  /** Headers come in buffer order, one block or more apart, so an archive
      has fewer entries than the buffer has blocks. */
  lemma ParsedOrderAndCount(buf: seq<byte>, t: Tar)
    requires Parse(buf) == Success(t)
    ensures forall i, j | 0 <= i < j < |t.entries| :: Span(t.entries, i) + 512 <= Span(t.entries, j)
    ensures |t.entries| * 512 < |buf|
  {
    var es := t.entries;
    forall i, j | 0 <= i < j < |es| ensures Span(es, i) + 512 <= Span(es, j) {
      SpanGrows(es, i, j);
    }
    if es != [] {
      var last := |es| - 1;
      RunEntry(HeaderStep, buf, t, last);
      SpanGrows(es, 0, last);
    }
  }

  /** The loop never produces NotATarFile; only the length check in front
      of it does, so that error means exactly a buffer shorter than a block. */
  lemma NotATarFileIff(buf: seq<byte>)
    ensures Parse(buf) == Failure(NotATarFile) <==> |buf| < TarHeaderLen
  {
    if |buf| >= TarHeaderLen && Parse(buf).Failure? {
      RunFails(HeaderStep, buf, Parse(buf).error);
    }
  }

  /** A buffer of exactly one block is a damaged header, not an archive: the
      header check needs strictly more than 512 bytes from the cursor. */
  lemma OneBlockIsDamaged(buf: seq<byte>)
    requires |buf| == TarHeaderLen
    ensures Parse(buf) == Failure(DamagedHeader)
  {
  }

  /** However many good entries come first, the first bad header decides the
      result and the entries before it are lost: a truncated block gives
      DamagedHeader, an unreadable size gives SizeUnreadable, and a size
      reaching past the buffer panics. */
  lemma FirstBadHeaderDecides(buf: seq<byte>, es: seq<Entry>, h: nat)
    requires |buf| >= TarHeaderLen
    requires Chain(HeaderStep, buf, 0, es, h)
    ensures h < |buf| <= h + TarHeaderLen ==> Parse(buf) == Failure(DamagedHeader)
    ensures h + TarHeaderLen < |buf| && NameAt(buf, h) != [] && SizeAt(buf, h).IntError? ==>
            Parse(buf) == Failure(SizeUnreadable)
    ensures h + TarHeaderLen < |buf| && NameAt(buf, h) != [] && SizeAt(buf, h).Value? &&
            h + TarHeaderLen + SizeAt(buf, h).n > |buf| ==>
            Parse(buf) == Panic
  {
    RunAfterChain(HeaderStep, buf, es, h);
  }

  /** A complete header with a name and a size whose payload fits yields
      the entry with that name, size and payload. This is the forward half
      of HeaderStepYields with the entry spelled out from the header's
      fields, the form one turn of the loop needs. */
  lemma HeaderYields(buf: seq<byte>, h: nat, name: string, n: nat)
    requires h + TarHeaderLen < |buf|
    requires NameAt(buf, h) == name && name != []
    requires SizeAt(buf, h) == Value(n)
    requires h + TarHeaderLen + n <= |buf|
    ensures HeaderStep(buf, h) == Yield(Entry(NormalFile, name, n, buf[h + TarHeaderLen .. h + TarHeaderLen + n]))
  {
  }

  /** One turn of the loop: a complete header with a name and a size whose
      payload fits adds its entry to the run, and the cursor moves one
      advance on. */
  lemma NextHeader(buf: seq<byte>, es: seq<Entry>, h: nat, name: string, n: nat, next: nat)
    requires Chain(HeaderStep, buf, 0, es, h)
    requires h + TarHeaderLen < |buf|
    requires NameAt(buf, h) == name && name != []
    requires SizeAt(buf, h) == Value(n)
    requires h + TarHeaderLen + n <= |buf|
    requires next == h + Advance(n)
    ensures Chain(HeaderStep, buf, 0, es + [Entry(NormalFile, name, n, buf[h + TarHeaderLen .. h + TarHeaderLen + n])], next)
  {
    var e := Entry(NormalFile, name, n, buf[h + TarHeaderLen .. h + TarHeaderLen + n]);
    HeaderYields(buf, h, name, n);
    ChainExtend(HeaderStep, buf, 0, es, h, e, next);
  }

  /** The loop ends cleanly after a run of entries, with those entries as
      the archive, when the buffer is used up or an all-zero name follows. */
  lemma EndOfArchive(buf: seq<byte>, es: seq<Entry>, h: nat)
    requires |buf| >= TarHeaderLen
    requires Chain(HeaderStep, buf, 0, es, h)
    requires h >= |buf| || (h + TarHeaderLen < |buf| && NameAt(buf, h) == [])
    ensures Parse(buf) == Success(Tar(es))
  {
    RunAfterChain(HeaderStep, buf, es, h);
  }

  // ---------------------------------------------------------------------
  // Header fields read at the byte level

  /** The name field read as bytes: the name is the lossy decoding of the
      field without its trailing zero bytes, plain character codes when those
      bytes are ASCII, and empty exactly when the whole field is zero. */
  lemma NameBytes(buf: seq<byte>, h: nat)
    requires h + TarHeaderLen <= |buf|
    ensures var f := buf[h .. h + FilenameLen];
            && NameAt(buf, h) == Utf8Lossy(TrimEnd(f, 0))
            && (IsAscii(TrimEnd(f, 0)) ==> NameAt(buf, h) == Chars(TrimEnd(f, 0)))
            && (NameAt(buf, h) == [] <==> forall k | 0 <= k < FilenameLen :: f[k] == 0)
  {
    var f := buf[h .. h + FilenameLen];
    TrimNulAfterLossy(f);
    LossyAscii(TrimEnd(f, 0));
    TrimEndEmpty(Utf8Lossy(f), '\0');
    LossyAllNul(f);
  }

  /** The size field read as bytes: it is a size exactly when the field
      without its trailing zero bytes is ASCII and reads as a base-8 usize,
      and then it is that number; a byte at or above 0x80 makes it
      unreadable. */
  lemma SizeBytes(buf: seq<byte>, h: nat)
    requires h + TarHeaderLen <= |buf|
    ensures var t := TrimEnd(SizeField(buf, h), 0);
            && (SizeAt(buf, h).Value? <==> IsAscii(t) && FromStrRadix8(Chars(t)).Value?)
            && (IsAscii(t) ==> SizeAt(buf, h) == FromStrRadix8(Chars(t)))
  {
    var t := TrimEnd(SizeField(buf, h), 0);
    TrimNulAfterLossy(SizeField(buf, h));
    LossyAscii(t);
    var s := Utf8Lossy(t);
    assert SizeAt(buf, h) == FromStrRadix8(s);
    if !IsAscii(t) {
      var j :| 0 <= j < |s| && s[j] as int >= 0x80;
      var ds := Digits(s);
      if j > 0 && s[0] == '+' {
        assert ds[j - 1] == s[j];
        assert !IsOctalDigit(ds[j - 1]);
      } else {
        assert ds[j] == s[j];
        assert !IsOctalDigit(ds[j]);
      }
    }
  }

  /** An all-zero name field ends the archive: at a complete header block,
      the loop yields no further entries exactly when the name field is all
      zero bytes. */
  lemma TerminatorBlock(buf: seq<byte>, off: nat)
    requires off + TarHeaderLen < |buf|
    ensures Walk(HeaderStep, buf, off) == Success([]) <==> forall k | off <= k < off + FilenameLen :: buf[k] == 0
  {
    WalkEndsAt(HeaderStep, buf, off);
    NameBytes(buf, off);
    var f := buf[off .. off + FilenameLen];
    assert forall k | off <= k < off + FilenameLen :: buf[k] == f[k - off];
    assert HeaderStep(buf, off) == Terminator <==> NameAt(buf, off) == [];
  }

  /** One file: a header at 0 naming "hello.txt" with size 5, its payload
      padded to one block, then an all-zero name field and at least one
      more byte. The archive lists that one name and hands back the five
      payload bytes; every other name is not found. */
  lemma HelloArchive(buf: seq<byte>)
    requires |buf| > 1024 + TarHeaderLen
    requires NameAt(buf, 0) == "hello.txt"
    requires SizeAt(buf, 0) == Value(5)
    requires forall k | 1024 <= k < 1024 + FilenameLen :: buf[k] == 0
    ensures Parse(buf) == Success(Tar([Entry(NormalFile, "hello.txt", 5, buf[512 .. 517])]))
    ensures Parse(buf).value.GetFilenames() == ["hello.txt"]
    ensures Parse(buf).value.GetPayload("hello.txt") == Ok(buf[512 .. 517])
    ensures forall name | name != "hello.txt" :: Parse(buf).value.GetPayload(name) == Err(FileNotFound)
  {
    var e := Entry(NormalFile, "hello.txt", 5, buf[512 .. 517]);
    assert Advance(5) == 1024;
    TerminatorBlock(buf, 1024);
    assert HeaderStep(buf, 0) == Yield(e);
    assert [e] + [] == [e];
    var t := Parse(buf).value;
    assert t.entries[0].filename == "hello.txt";
  }

  /** The same archive cut off right after its all-zero block, which is
      exactly three blocks long, is refused: the header check at offset
      1024 needs a byte past that block. */
  lemma HelloArchiveExactLength(buf: seq<byte>)
    requires |buf| == 1024 + TarHeaderLen
    requires NameAt(buf, 0) == "hello.txt"
    requires SizeAt(buf, 0) == Value(5)
    requires forall k | 1024 <= k < 1024 + FilenameLen :: buf[k] == 0
    ensures Parse(buf) == Failure(DamagedHeader)
  {
    var e := Entry(NormalFile, "hello.txt", 5, buf[512 .. 517]);
    HeaderYields(buf, 0, "hello.txt", 5);
    assert Advance(5) == 1024;
    assert Chain(HeaderStep, buf, 0, [e], 1024);
    FirstBadHeaderDecides(buf, [e], 1024);
  }
}

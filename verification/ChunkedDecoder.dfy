/**
 The chunked decoder as it runs: it rewrites the caller's buffer in place, moving the data of
 each chunk down over the framing it has already read, and keeps its place between calls.
 Every call is proved to do to the buffer exactly what ChunkedSpec.Run says.
 */
module ChunkedDecoding {
  import opened Bytes
  import opened ChunkedSpec

  /** Where one phase leaves off: it goes on to the next phase, or the call is over. */
  datatype Flow = Go | Exit(verdict: Verdict)

  /** From src on, the buffer still holds the input s. */
  ghost predicate Unread(buf: array<byte>, s: bytes, src: nat)
    reads buf
  {
    |s| <= buf.Length && forall k :: src <= k < |s| ==> buf[k] == s[k]
  }

  /** Reading s from src to src' took the decoder from d to d', gave `out`, and went on as flow says. */
  ghost predicate Reads(d: Dec, s: bytes, src: nat, out: bytes, d': Dec, src': nat, flow: Flow)
    requires Inv(d) && Inv(d') && src <= src' <= |s|
  {
    Run(d, s[src..]) == match flow
      case Go => After(out, src' - src, Run(d', s[src'..]))
      case Exit(verdict) => Result(d', out, src' - src, verdict)
  }

  lemma ReadNothing(d: Dec, s: bytes, src: nat)
    requires Inv(d) && src <= |s|
    ensures Reads(d, s, src, [], d, src, Go)
    ensures src == |s| ==> Reads(d, s, src, [], d, src, Exit(Incomplete))
  {
  }

  /** As much of a chunk as the input holds is read. */
  lemma ReadData(d: Dec, s: bytes, src: nat, n: nat)
    requires Inv(d) && d.phase == ChunkData && src <= |s| && n == if |s| - src < d.left then |s| - src else d.left
    ensures var d' := d.(left := d.left - n, phase := if n == d.left then ChunkCrlf else ChunkData);
            Inv(d') && Reads(d, s, src, s[src..src + n], d', src + n, if n < d.left then Exit(Incomplete) else Go)
  {
    hide Run, Inv;
    RunChunkData(d, s[src..], n);
    assert s[src..][..n] == s[src..src + n] && s[src..][n..] == s[src + n..];
  }

  /** What follows when the next byte is read. */
  lemma ReadByte(d: Dec, s: bytes, src: nat)
    requires Inv(d) && src < |s|
    ensures match Step(d, s[src])
            case Next(d', out) => Inv(d') && Reads(d, s, src, out, d', src + 1, Go)
            case Finish(d') => Inv(d') && Reads(d, s, src, [], d', src + 1, Exit(Complete))
            case Reject => Reads(d, s, src, [], d, src, Exit(Invalid))
  {
    StepKeepsInv(d, s[src]);
    assert s[src..][1..] == s[src + 1..];
  }

  lemma ReadOn(d: Dec, s: bytes, src: nat, out: bytes, d1: Dec, src1: nat, out1: bytes, d2: Dec, src2: nat, flow: Flow)
    requires Inv(d) && Inv(d1) && Inv(d2) && src <= src1 <= src2 <= |s|
    requires Reads(d, s, src, out, d1, src1, Go) && Reads(d1, s, src1, out1, d2, src2, flow)
    ensures Reads(d, s, src, out + out1, d2, src2, flow)
  {
    if flow == Go {
      AfterAfter(out, src1 - src, out1, src2 - src1, Run(d2, s[src2..]));
    }
  }

  lemma SkipOn(d: Dec, s: bytes, src: nat, d1: Dec, src1: nat, d2: Dec, src2: nat, flow: Flow)
    requires Inv(d) && Inv(d1) && Inv(d2) && src <= src1 <= src2 <= |s|
    requires Reads(d, s, src, [], d1, src1, Go) && Reads(d1, s, src1, [], d2, src2, flow)
    ensures Reads(d, s, src, [], d2, src2, flow)
  {
    ReadOn(d, s, src, [], d1, src1, [], d2, src2, flow);
  }

  /** The end of a size read so far and the first byte of an extension look the same from here on. */
  lemma SizeIsOver(d: Dec, s: bytes, src: nat)
    requires Inv(d) && d.phase == ChunkSize && d.hex > 0 && src < |s| && DecodeHex(s[src]) == -1
    ensures Reads(d, s, src, [], d.(hex := 0, phase := ChunkExt), src, Go)
  {
  }

  lemma WholeInput(d: Dec, s: bytes, out: bytes, d': Dec, n: nat, verdict: Verdict)
    requires Inv(d) && Inv(d') && n <= |s| && Reads(d, s, 0, out, d', n, Exit(verdict))
    ensures Run(d, s) == Result(d', out, n, verdict)
  {
    assert s[0..] == s;
  }

  /** Moves what was not decoded down behind the data. */
  method MoveTail(buf: array<byte>, bufsz: nat, dst: nat, src: nat, ghost s: bytes)
    requires dst <= src <= bufsz == |s| && Unread(buf, s, src)
    modifies buf
    ensures buf[..dst + (bufsz - src)] == old(buf[..dst]) + s[src..]
    ensures forall k :: bufsz <= k < buf.Length ==> buf[k] == old(buf[k])
  {
    assert buf[src..bufsz] == s[src..];
    MoveDown(buf, dst, src, bufsz - src);
  }

  class ChunkedDecoder {
    var bytesLeft: nat
    var consumeTrailer: bool
    var hexCount: nat
    var state: Phase

    function View(): Dec
      reads this
    {
      Dec(bytesLeft, consumeTrailer, hexCount, state)
    }

    ghost predicate Valid()
      reads this
    {
      Inv(View())
    }

    constructor (trailer: bool)
      ensures View() == Fresh(trailer) && Valid()
    {
      bytesLeft, consumeTrailer, hexCount, state := 0, trailer, 0, ChunkSize;
    }

    method ReadChunkSize(buf: array<byte>, bufsz: nat, start: nat, ghost s: bytes) returns (src: nat, flow: Flow)
      requires Valid() && state == ChunkSize && start <= bufsz == |s| && Unread(buf, s, start)
      modifies this
      ensures Valid() && start <= src <= bufsz && Reads(old(View()), s, start, [], View(), src, flow)
      ensures flow == Go ==> state == ChunkExt
    {
      hide Reads, Run;
      src := start;
      ghost var d0 := View();
      ReadNothing(d0, s, src);
      while true
        invariant start <= src <= bufsz && Valid() && state == ChunkSize && Reads(d0, s, start, [], View(), src, Go)
        decreases bufsz - src
      {
        ghost var d := View();
        if src == bufsz {
          ReadNothing(d, s, src);
          SkipOn(d0, s, start, d, src, d, src, Exit(Incomplete));
          return src, Exit(Incomplete);
        }
        ReadByte(d, s, src);
        var v := DecodeHex(buf[src]);
        if v == -1 {
          if hexCount == 0 {
            SkipOn(d0, s, start, d, src, d, src, Exit(Invalid));
            return src, Exit(Invalid);
          }
          break;
        }
        if hexCount == MAX_DIGITS {
          SkipOn(d0, s, start, d, src, d, src, Exit(Invalid));
          return src, Exit(Invalid);
        }
        SizeNeverOverflows(d, v);
        bytesLeft := (bytesLeft * 16 + v) % SIZE_T;
        hexCount := hexCount + 1;
        assert View() == Step(d, s[src]).dec;
        SkipOn(d0, s, start, d, src, View(), src + 1, Go);
        src := src + 1;
      }
      SizeIsOver(View(), s, src);
      SkipOn(d0, s, start, View(), src, View().(hex := 0, phase := ChunkExt), src, Go);
      hexCount := 0;
      state := ChunkExt;
      flow := Go;
    }

    method SkipChunkExt(buf: array<byte>, bufsz: nat, start: nat, ghost s: bytes) returns (src: nat, flow: Flow)
      requires Valid() && state == ChunkExt && start <= bufsz == |s| && Unread(buf, s, start)
      modifies this
      ensures Valid() && start <= src <= bufsz && Reads(old(View()), s, start, [], View(), src, flow)
      ensures flow == Go ==> start < src
    {
      hide Reads, Run;
      src := start;
      ghost var d := View();
      ReadNothing(d, s, src);
      ReadNothing(d, s, bufsz);
      while true
        invariant start <= src <= bufsz && View() == d && Reads(d, s, start, [], d, src, Go)
        decreases bufsz - src
      {
        if src == bufsz {
          SkipOn(d, s, start, d, src, d, src, Exit(Incomplete));
          return src, Exit(Incomplete);
        }
        ReadByte(d, s, src);
        if buf[src] == '\n' { break; }
        SkipOn(d, s, start, d, src, d, src + 1, Go);
        src := src + 1;
      }
      flow := Go;
      if bytesLeft == 0 {
        if consumeTrailer {
          state := TrailerHead;
        } else {
          flow := Exit(Complete);
        }
      } else {
        state := ChunkData;
      }
      SkipOn(d, s, start, d, src, View(), src + 1, flow);
      src := src + 1;
    }

    method SkipChunkCrlf(buf: array<byte>, bufsz: nat, start: nat, ghost s: bytes) returns (src: nat, flow: Flow)
      requires Valid() && state == ChunkCrlf && start <= bufsz == |s| && Unread(buf, s, start)
      modifies this
      ensures Valid() && start <= src <= bufsz && Reads(old(View()), s, start, [], View(), src, flow)
      ensures flow == Go ==> start < src
    {
      hide Reads, Run;
      src := start;
      ghost var d := View();
      ReadNothing(d, s, src);
      ReadNothing(d, s, bufsz);
      while true
        invariant start <= src <= bufsz && View() == d && Reads(d, s, start, [], d, src, Go)
        decreases bufsz - src
      {
        if src == bufsz {
          SkipOn(d, s, start, d, src, d, src, Exit(Incomplete));
          return src, Exit(Incomplete);
        }
        ReadByte(d, s, src);
        if buf[src] != '\r' { break; }
        SkipOn(d, s, start, d, src, d, src + 1, Go);
        src := src + 1;
      }
      if buf[src] != '\n' {
        SkipOn(d, s, start, d, src, d, src, Exit(Invalid));
        return src, Exit(Invalid);
      }
      state := ChunkSize;
      SkipOn(d, s, start, d, src, View(), src + 1, Go);
      src := src + 1;
      flow := Go;
    }

    method ReadTrailerHead(buf: array<byte>, bufsz: nat, start: nat, ghost s: bytes) returns (src: nat, flow: Flow)
      requires Valid() && state == TrailerHead && start <= bufsz == |s| && Unread(buf, s, start)
      modifies this
      ensures Valid() && start <= src <= bufsz && Reads(old(View()), s, start, [], View(), src, flow)
      ensures flow == Go ==> start < src
    {
      hide Reads, Run;
      src := start;
      ghost var d := View();
      ReadNothing(d, s, src);
      ReadNothing(d, s, bufsz);
      while true
        invariant start <= src <= bufsz && View() == d && Reads(d, s, start, [], d, src, Go)
        decreases bufsz - src
      {
        if src == bufsz {
          SkipOn(d, s, start, d, src, d, src, Exit(Incomplete));
          return src, Exit(Incomplete);
        }
        ReadByte(d, s, src);
        if buf[src] != '\r' { break; }
        SkipOn(d, s, start, d, src, d, src + 1, Go);
        src := src + 1;
      }
      if buf[src] == '\n' {
        flow := Exit(Complete);
      } else {
        state := TrailerMiddle;
        flow := Go;
      }
      SkipOn(d, s, start, d, src, View(), src + 1, flow);
      src := src + 1;
    }

    method SkipTrailerMiddle(buf: array<byte>, bufsz: nat, start: nat, ghost s: bytes) returns (src: nat, flow: Flow)
      requires Valid() && state == TrailerMiddle && start <= bufsz == |s| && Unread(buf, s, start)
      modifies this
      ensures Valid() && start <= src <= bufsz && Reads(old(View()), s, start, [], View(), src, flow)
      ensures flow == Go ==> start < src
    {
      hide Reads, Run;
      src := start;
      ghost var d := View();
      ReadNothing(d, s, src);
      ReadNothing(d, s, bufsz);
      while true
        invariant start <= src <= bufsz && View() == d && Reads(d, s, start, [], d, src, Go)
        decreases bufsz - src
      {
        if src == bufsz {
          SkipOn(d, s, start, d, src, d, src, Exit(Incomplete));
          return src, Exit(Incomplete);
        }
        ReadByte(d, s, src);
        if buf[src] == '\n' { break; }
        SkipOn(d, s, start, d, src, d, src + 1, Go);
        src := src + 1;
      }
      state := TrailerHead;
      SkipOn(d, s, start, d, src, View(), src + 1, Go);
      src := src + 1;
      flow := Go;
    }

    /** Moves as much of the chunk as has arrived down to dst. */
    method MoveChunkData(buf: array<byte>, bufsz: nat, dst: nat, src: nat, ghost s: bytes) returns (n: nat, flow: Flow)
      requires Valid() && state == ChunkData && dst <= src <= bufsz == |s| && Unread(buf, s, src)
      modifies this, buf
      ensures Valid() && src + n <= bufsz
      ensures Reads(old(View()), s, src, s[src..src + n], View(), src + n, flow)
      ensures flow == Go ==> 0 < n
      ensures buf[..dst + n] == old(buf[..dst]) + s[src..src + n]
      ensures forall k :: src + n <= k < buf.Length ==> buf[k] == old(buf[k])
    {
      var avail := bufsz - src;
      n := if avail < bytesLeft then avail else bytesLeft;
      hide Run, Reads;
      ReadData(View(), s, src, n);
      assert buf[src..src + n] == s[src..src + n];
      MoveDown(buf, dst, src, n);
      if avail < bytesLeft {
        bytesLeft := bytesLeft - avail;
        flow := Exit(Incomplete);
      } else {
        bytesLeft := 0;
        state := ChunkCrlf;
        flow := Go;
      }
    }

    /** The phase that is due, on what is left of the input from src on. */
    method RunPhase(buf: array<byte>, bufsz: nat, dst0: nat, src0: nat, ghost s: bytes)
        returns (dst: nat, src: nat, flow: Flow)
      requires Valid() && dst0 <= src0 <= bufsz == |s| && Unread(buf, s, src0)
      modifies this, buf
      ensures Valid() && dst <= src && src0 <= src <= bufsz && dst0 <= dst && dst - dst0 <= src - src0
      ensures Reads(old(View()), s, src0, s[src0..src0 + (dst - dst0)], View(), src, flow)
      ensures flow == Go ==> src0 < src || (old(state) == ChunkSize && state != ChunkSize)
      ensures buf[..dst] == old(buf[..dst0]) + s[src0..src0 + (dst - dst0)]
      ensures forall k :: src <= k < buf.Length ==> buf[k] == old(buf[k])
    {
      hide Reads, Run, Inv;
      dst := dst0;
      match state {
        case ChunkSize => src, flow := ReadChunkSize(buf, bufsz, src0, s);
        case ChunkExt => src, flow := SkipChunkExt(buf, bufsz, src0, s);
        case ChunkData =>
          var n;
          n, flow := MoveChunkData(buf, bufsz, dst0, src0, s);
          src, dst := src0 + n, dst0 + n;
        case ChunkCrlf => src, flow := SkipChunkCrlf(buf, bufsz, src0, s);
        case TrailerHead => src, flow := ReadTrailerHead(buf, bufsz, src0, s);
        case TrailerMiddle => src, flow := SkipTrailerMiddle(buf, bufsz, src0, s);
      }
      assert s[src0..src0] == [];
    }

    /**
     Decodes the first bufsz bytes of buf.  `ret` is -2 if more is needed, -1 on malformed input, and
     otherwise the number of bytes left undecoded; `newsz` is the length of the data.
     */
    method Decode(buf: array<byte>, bufsz: nat) returns (ret: int, newsz: nat)
      requires Valid() && bufsz <= buf.Length
      modifies this, buf
      ensures Valid()
      ensures var r := Run(old(View()), old(buf[..bufsz]));
              && View() == r.dec
              && newsz == |r.out| <= r.used <= bufsz
              && buf[..newsz + (bufsz - r.used)] == r.out + old(buf[r.used..bufsz])
              && ret == match r.verdict
                        case Incomplete => -2
                        case Invalid => -1
                        case Complete => bufsz - r.used
      ensures forall k :: bufsz <= k < buf.Length ==> buf[k] == old(buf[k])
    {
      hide Reads, Run, Inv;
      ghost var s, d0 := buf[..bufsz], View();
      var dst, src := 0, 0;
      var flow: Flow;
      ReadNothing(d0, s, 0);
      while true
        invariant Valid() && dst <= src <= bufsz && Unread(buf, s, src)
        invariant Reads(d0, s, 0, buf[..dst], View(), src, Go)
        invariant forall k :: bufsz <= k < buf.Length ==> buf[k] == old(buf[k])
        decreases bufsz - src, if state == ChunkSize then 1 else 0
      {
        ghost var d, dst0, src0, done := View(), dst, src, buf[..dst];
        dst, src, flow := RunPhase(buf, bufsz, dst, src, s);
        ReadOn(d0, s, 0, done, d, src0, s[src0..src0 + (dst - dst0)], View(), src, flow);
        if flow.Exit? { break; }
      }
      WholeInput(d0, s, buf[..dst], View(), src, flow.verdict);
      ret := match flow.verdict case Incomplete => -2 case Invalid => -1 case Complete => bufsz - src;
      MoveTail(buf, bufsz, dst, src, s);
      newsz := dst;
    }
  }
}

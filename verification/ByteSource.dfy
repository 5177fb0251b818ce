/** The decoder's moving byte source: a position in a buffer that every read advances. Each reader is proved
    against the function of buffer and position that the decoding theorems speak of. */
module ByteReader {
  import opened Words
  import opened Base
  import opened EFlags
  import opened Insns
  import opened Decoder

  /** n bytes are there, and read as their little-endian value, or the source ends before them. */
  lemma {:induction false} ReadLeIs(b: seq<u8>, at: nat, n: nat, end: Status)
    requires at <= |b|
    ensures Decoder.ReadLe(b, at, n, end)
      == if at + n <= |b| then Got(FromLe(b[at..at + n]), at + n) else Fail(end)
    decreases n
  {
    if n > 0 && at < |b| {
      ReadLeIs(b, at + 1, n - 1, end);
      if at + n <= |b| {
        assert b[at..at + n][1..] == b[at + 1..at + n];
      }
    }
  }

  class ByteSource {
    const buf: seq<u8>
    const end: Status
    var consumed: nat

    constructor (buf: seq<u8>, end: Status)
      requires |buf| < 256
      ensures Valid() && this.buf == buf && this.end == end && consumed == 0
    {
      this.buf, this.end, consumed := buf, end, 0;
    }

    predicate Valid()
      reads this
    {
      consumed <= |buf| < 256
    }

    method Peek() returns (r: Parse<u8>)
      requires Valid()
      ensures r == ReadByte(buf, consumed, end)
    {
      r := if consumed < |buf| then Got(buf[consumed], consumed + 1) else Fail(end);
    }

    method Next() returns (r: Parse<u8>)
      requires Valid()
      modifies `consumed
      ensures Valid() && r == ReadByte(buf, old(consumed), end)
      ensures consumed == if r.Got? then r.next else old(consumed)
    {
      r := Peek();
      if r.Got? {
        consumed := consumed + 1;
      }
    }

    /** Bytes read one after another, then put together. */
    method Little(n: nat) returns (r: Parse<nat>)
      requires Valid()
      modifies `consumed
      ensures Valid() && r == Decoder.ReadLe(buf, old(consumed), n, end)
      ensures r.Got? ==> consumed == r.next
    {
      var raw: seq<u8> := [];
      ghost var at := consumed;
      ReadLeIs(buf, at, n, end);
      while |raw| < n
        invariant Valid() && |raw| <= n && consumed == at + |raw| && raw == buf[at..consumed]
        decreases n - |raw|
      {
        var x := Next();
        if x.Fail? {
          return Fail(x.status);
        }
        raw := raw + [x.value];
      }
      r := Got(FromLe(raw), consumed);
    }

    method ImmSx(n: OpSize) returns (r: Parse<u64>)
      requires Valid()
      modifies `consumed
      ensures Valid() && r == ReadImmSx(buf, old(consumed), n, end)
      ensures r.Got? ==> consumed == r.next
    {
      SpanIsModulus(n);
      var v := Little(n);
      r := if v.Fail? then Fail(v.status) else Got(SignExtend(v.value, n), v.next);
    }

    /** The prefix loop: any run of legacy prefixes, then at most one REX byte. */
    method Scan() returns (r: Parse<Prefixes>)
      requires Valid()
      modifies `consumed
      ensures Valid() && r == ScanPrefixes(buf, old(consumed), NO_PREFIXES, end)
      ensures r.Got? ==> consumed == r.next
    {
      var px := NO_PREFIXES;
      while true
        invariant Valid()
        invariant ScanPrefixes(buf, old(consumed), NO_PREFIXES, end) == ScanPrefixes(buf, consumed, px, end)
        decreases |buf| - consumed
      {
        var x := Peek();
        if x.Fail? {
          return Fail(x.status);
        }
        if !LegacyPrefix(x.value) {
          break;
        }
        px := Prefixed(px, x.value);
        consumed := consumed + 1;
      }
      r := AfterLegacy(buf, consumed, px);
      if r.Got? {
        consumed := r.next;
      }
    }

    method Disp(mod: u2) returns (r: Parse<u64>)
      requires Valid()
      modifies `consumed
      ensures Valid() && r == Displacement(buf, old(consumed), mod, end)
      ensures r.Got? ==> consumed == r.next
    {
      if mod == 1 {
        r := ImmSx(1);
      } else if mod == 2 {
        r := ImmSx(4);
      } else {
        r := Got(0, consumed);
      }
    }

    method Sib(px: Prefixes, mod: u2) returns (r: Parse<Operand>)
      requires Valid()
      modifies `consumed
      ensures Valid() && r == SibOperand(buf, old(consumed), px, mod, end)
      ensures r.Got? ==> consumed == r.next
    {
      var sib := Next();
      if sib.Fail? {
        return Fail(sib.status);
      }
      var disp := Disp(if sib.value % 8 == 5 && mod == 0 then 2 else mod);
      r := if disp.Fail? then Fail(disp.status) else Got(SibAddress(px, sib.value, mod, disp.value), disp.next);
    }

    /** The r/m operand: a register, a SIB address, a RIP-relative one, or base plus displacement. */
    method Rm(px: Prefixes, m: ModRm, size: OpSize) returns (r: Parse<Operand>)
      requires Valid()
      modifies `consumed
      ensures Valid() && r == RmOperand(buf, old(consumed), px, m, size, end)
      ensures r.Got? ==> consumed == r.next
    {
      if m.mod == 3 {
        return Got(Reg(RegField(px, px.RexB(), m.rm, size)), consumed);
      }
      if m.rm == 4 {
        r := Sib(px, m.mod);
        return;
      }
      var disp := Disp(DispMod(m));
      r := if disp.Fail? then Fail(disp.status) else Got(PlainAddress(px, m, disp.value), disp.next);
    }

    /** A whole instruction; its length is what was consumed. */
    method Decode(rip: u64) returns (r: Decoded)
      requires Valid() && consumed == 0
      modifies `consumed
      ensures Valid() && r == DecodeWithSource(buf, rip, end)
      ensures r.Ready? ==> consumed == r.insn.len
    {
      var px := Scan();
      if px.Fail? {
        return Failed(px.status);
      }
      var y := AfterPrefixes(buf, consumed, px.value, end);
      if y.Fail? {
        return Failed(y.status);
      }
      consumed := y.next;
      r := Ready(Assemble(px.value, y.value, rip, consumed));
    }
  }

  /** decode_bytes on a buffer that exists: at most fifteen bytes of it are looked at. */
  method DecodeBuffer(bytes: seq<u8>, rip: u64) returns (r: Decoded)
    ensures r == DecodeBytes(bytes, rip)
  {
    if |bytes| == 0 {
      return Failed(TruncatedInstruction);
    }
    var bs := new ByteSource(if |bytes| > 15 then bytes[..15] else bytes, TruncatedInstruction);
    r := bs.Decode(rip);
  }
}

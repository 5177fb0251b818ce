/** Accepted encodings form a prefix-free code: a decoder that succeeds has read exactly the bytes it
    counts, so its answer depends on those bytes alone and every shorter buffer is reported as cut off. */
module PrefixFree {
  import opened Words
  import opened Base
  import opened EFlags
  import opened Insns
  import opened Decoder

  /** Two buffers agree below n as far as both reach. */
  predicate Shares(b: seq<u8>, c: seq<u8>, n: nat) {
    forall i :: 0 <= i < n && i < |b| && i < |c| ==> b[i] == c[i]
  }

  /** The same answer when c holds every byte that was read, the source's own failure otherwise. */
  function Cut<T>(r: Parse<T>, c: seq<u8>, f: Status): Parse<T>
    requires r.Got?
  {
    if |c| >= r.next then r else Fail(f)
  }

  lemma ReadLeStep(b: seq<u8>, at: nat, n: nat, e: Status)
    requires at < |b| && n > 0
    ensures ReadLe(b, at, n, e).Got? == ReadLe(b, at + 1, n - 1, e).Got?
    ensures ReadLe(b, at, n, e) == Below(b[at], ReadLe(b, at + 1, n - 1, e))
  {
  }

  /** A byte below those already read. */
  function Below(low: u8, high: Parse<nat>): Parse<nat> {
    if high.Got? then Got(low + 256 * high.value, high.next) else high
  }

  lemma ReadLeAtEnd(c: seq<u8>, at: nat, n: nat, f: Status)
    requires at == |c| && n > 0
    ensures ReadLe(c, at, n, f) == Fail(f)
  {
  }

  lemma {:induction false} ReadLePrefix(b: seq<u8>, c: seq<u8>, at: nat, n: nat, e: Status, f: Status)
    requires at <= |b| && at <= |c|
    requires ReadLe(b, at, n, e).Got? && Shares(b, c, ReadLe(b, at, n, e).next)
    ensures ReadLe(c, at, n, f) == Cut(ReadLe(b, at, n, e), c, f)
    decreases n
  {
    if n == 0 {
    } else if at < |c| {
      ReadLeStep(b, at, n, e);
      ReadLeStep(c, at, n, f);
      ReadLePrefix(b, c, at + 1, n - 1, e, f);
    } else {
      ReadLeAtEnd(c, at, n, f);
    }
  }

  lemma ReadImmSxPrefix(b: seq<u8>, c: seq<u8>, at: nat, n: OpSize, e: Status, f: Status)
    requires at <= |b| && at <= |c|
    requires ReadImmSx(b, at, n, e).Got? && Shares(b, c, ReadImmSx(b, at, n, e).next)
    ensures ReadImmSx(c, at, n, f) == Cut(ReadImmSx(b, at, n, e), c, f)
  {
    SpanIsModulus(n);
    ReadLePrefix(b, c, at, n, e, f);
  }

  /** The scan also looks at the byte after the prefixes, so a buffer ending there may go either way; the
      opcode read that follows settles it. */
  lemma {:induction false} ScanPrefixesPrefix(b: seq<u8>, c: seq<u8>, at: nat, px: Prefixes, e: Status, f: Status)
    requires at <= |b| && at <= |c|
    requires ScanPrefixes(b, at, px, e).Got? && Shares(b, c, ScanPrefixes(b, at, px, e).next + 1)
    ensures var r, r' := ScanPrefixes(b, at, px, e), ScanPrefixes(c, at, px, f);
      if |c| > r.next then r' == r else r' == Fail(f) || (r' == r && |c| == r.next)
    decreases |b| - at
  {
    if at < |c| && LegacyPrefix(b[at]) {
      ScanPrefixesPrefix(b, c, at + 1, Prefixed(px, b[at]), e, f);
    }
  }

  lemma DisplacementPrefix(b: seq<u8>, c: seq<u8>, at: nat, mod: u2, e: Status, f: Status)
    requires at <= |b| && at <= |c|
    requires Displacement(b, at, mod, e).Got? && Shares(b, c, Displacement(b, at, mod, e).next)
    ensures Displacement(c, at, mod, f) == Cut(Displacement(b, at, mod, e), c, f)
  {
    if mod == 1 {
      ReadImmSxPrefix(b, c, at, 1, e, f);
    } else if mod == 2 {
      ReadImmSxPrefix(b, c, at, 4, e, f);
    }
  }

  lemma SibOperandPrefix(b: seq<u8>, c: seq<u8>, at: nat, px: Prefixes, mod: u2, e: Status, f: Status)
    requires at <= |b| && at <= |c|
    requires SibOperand(b, at, px, mod, e).Got? && Shares(b, c, SibOperand(b, at, px, mod, e).next)
    ensures SibOperand(c, at, px, mod, f) == Cut(SibOperand(b, at, px, mod, e), c, f)
  {
    if at < |c| {
      DisplacementPrefix(b, c, at + 1, if b[at] % 8 == 5 && mod == 0 then 2 else mod, e, f);
    }
  }

  lemma PlainOperandPrefix(b: seq<u8>, c: seq<u8>, at: nat, px: Prefixes, m: ModRm, e: Status, f: Status)
    requires at <= |b| && at <= |c|
    requires PlainOperand(b, at, px, m, e).Got? && Shares(b, c, PlainOperand(b, at, px, m, e).next)
    ensures PlainOperand(c, at, px, m, f) == Cut(PlainOperand(b, at, px, m, e), c, f)
  {
    DisplacementPrefix(b, c, at, DispMod(m), e, f);
  }

  lemma RmOperandPrefix(b: seq<u8>, c: seq<u8>, at: nat, px: Prefixes, m: ModRm, size: OpSize, e: Status, f: Status)
    requires at <= |b| && at <= |c|
    requires RmOperand(b, at, px, m, size, e).Got? && Shares(b, c, RmOperand(b, at, px, m, size, e).next)
    ensures RmOperand(c, at, px, m, size, f) == Cut(RmOperand(b, at, px, m, size, e), c, f)
  {
    if m.mod == 3 {
    } else if m.rm == 4 {
      SibOperandPrefix(b, c, at, px, m.mod, e, f);
    } else {
      PlainOperandPrefix(b, c, at, px, m, e, f);
    }
  }

  lemma RmRegPrefix(b: seq<u8>, c: seq<u8>, at: nat, px: Prefixes, kind: OpKind, size: OpSize, e: Status, f: Status)
    requires at <= |b| && at <= |c| && kind != Jcc
    requires RmReg(b, at, px, kind, size, e).Got? && Shares(b, c, RmReg(b, at, px, kind, size, e).next)
    ensures RmReg(c, at, px, kind, size, f) == Cut(RmReg(b, at, px, kind, size, e), c, f)
  {
    if at < |c| {
      RmOperandPrefix(b, c, at + 1, px, SplitModRm(b[at]), size, e, f);
    }
  }

  lemma RegRmPrefix(b: seq<u8>, c: seq<u8>, at: nat, px: Prefixes, kind: OpKind, size: OpSize, e: Status, f: Status)
    requires at <= |b| && at <= |c| && kind != Jcc
    requires RegRm(b, at, px, kind, size, e).Got? && Shares(b, c, RegRm(b, at, px, kind, size, e).next)
    ensures RegRm(c, at, px, kind, size, f) == Cut(RegRm(b, at, px, kind, size, e), c, f)
  {
    if at < |c| {
      RmOperandPrefix(b, c, at + 1, px, SplitModRm(b[at]), size, e, f);
    }
  }

  lemma RegImmPrefix(b: seq<u8>, c: seq<u8>, at: nat, kind: OpKind, size: OpSize, reg: RegId, n: OpSize,
                     e: Status, f: Status)
    requires at <= |b| && at <= |c| && reg < 16 && kind != Jcc
    requires RegImm(b, at, kind, size, reg, n, e).Got? && Shares(b, c, RegImm(b, at, kind, size, reg, n, e).next)
    ensures RegImm(c, at, kind, size, reg, n, f) == Cut(RegImm(b, at, kind, size, reg, n, e), c, f)
  {
    ReadImmSxPrefix(b, c, at, n, e, f);
  }

  lemma AluPrimaryPrefix(b: seq<u8>, c: seq<u8>, at: nat, px: Prefixes, family: u3, variant: nat, e: Status, f: Status)
    requires at <= |b| && at <= |c| && variant < 6
    requires AluPrimary(b, at, px, family, variant, e).Got?
    requires Shares(b, c, AluPrimary(b, at, px, family, variant, e).next)
    ensures AluPrimary(c, at, px, family, variant, f) == Cut(AluPrimary(b, at, px, family, variant, e), c, f)
  {
    var kind, size := AluOf(family), if variant % 2 == 0 then 1 else GprSize(px);
    if variant < 2 {
      RmRegPrefix(b, c, at, px, kind, size, e, f);
    } else if variant < 4 {
      RegRmPrefix(b, c, at, px, kind, size, e, f);
    } else {
      RegImmPrefix(b, c, at, kind, size, 0, ImmSize(size), e, f);
    }
  }

  lemma RmImmPrefix(b: seq<u8>, c: seq<u8>, at: nat, px: Prefixes, m: ModRm, kind: OpKind, size: OpSize, n: OpSize,
                    e: Status, f: Status)
    requires at <= |b| && at <= |c| && kind != Jcc
    requires RmImm(b, at, px, m, kind, size, n, e).Got? && Shares(b, c, RmImm(b, at, px, m, kind, size, n, e).next)
    ensures RmImm(c, at, px, m, kind, size, n, f) == Cut(RmImm(b, at, px, m, kind, size, n, e), c, f)
  {
    var rm := RmOperand(b, at, px, m, size, e);
    assert Shares(b, c, rm.next);
    RmOperandPrefix(b, c, at, px, m, size, e, f);
    if rm.next <= |c| {
      assert RmOperand(c, at, px, m, size, f) == rm;
      ReadImmSxPrefix(b, c, rm.next, n, e, f);
    } else {
      assert RmOperand(c, at, px, m, size, f) == Fail(f);
    }
  }

  lemma Group1Prefix(b: seq<u8>, c: seq<u8>, at: nat, px: Prefixes, opc: u8, e: Status, f: Status)
    requires at <= |b| && at <= |c|
    requires Group1(b, at, px, opc, e).Got? && Shares(b, c, Group1(b, at, px, opc, e).next)
    ensures Group1(c, at, px, opc, f) == Cut(Group1(b, at, px, opc, e), c, f)
  {
    if at < |c| {
      var m := SplitModRm(b[at]);
      var size: OpSize := if opc == 0x80 then 1 else GprSize(px);
      RmImmPrefix(b, c, at + 1, px, m, AluOf(m.reg), size, if opc == 0x81 then ImmSize(size) else 1, e, f);
    }
  }

  lemma Group3BodyPrefix(b: seq<u8>, c: seq<u8>, at: nat, px: Prefixes, m: ModRm, size: OpSize, e: Status, f: Status)
    requires at <= |b| && at <= |c|
    requires Group3Body(b, at, px, m, size, e).Got? && Shares(b, c, Group3Body(b, at, px, m, size, e).next)
    ensures Group3Body(c, at, px, m, size, f) == Cut(Group3Body(b, at, px, m, size, e), c, f)
  {
    if m.reg < 2 {
      RmImmPrefix(b, c, at, px, m, Test, size, ImmSize(size), e, f);
    } else {
      RmOperandPrefix(b, c, at, px, m, size, e, f);
    }
  }

  lemma Group3Prefix(b: seq<u8>, c: seq<u8>, at: nat, px: Prefixes, opc: u8, e: Status, f: Status)
    requires at <= |b| && at <= |c|
    requires Group3(b, at, px, opc, e).Got? && Shares(b, c, Group3(b, at, px, opc, e).next)
    ensures Group3(c, at, px, opc, f) == Cut(Group3(b, at, px, opc, e), c, f)
  {
    if at < |c| {
      Group3BodyPrefix(b, c, at + 1, px, SplitModRm(b[at]), if opc == 0xF6 then 1 else GprSize(px), e, f);
    }
  }

  lemma Group45Prefix(b: seq<u8>, c: seq<u8>, at: nat, px: Prefixes, opc: u8, e: Status, f: Status)
    requires at <= |b| && at <= |c|
    requires Group45(b, at, px, opc, e).Got? && Shares(b, c, Group45(b, at, px, opc, e).next)
    ensures Group45(c, at, px, opc, f) == Cut(Group45(b, at, px, opc, e), c, f)
  {
    if at < |c| {
      var size: OpSize := if opc == 0xFE then 1 else GprSize(px);
      RmOperandPrefix(b, c, at + 1, px, SplitModRm(b[at]), size, e, f);
    }
  }

  lemma MovImmPrefix(b: seq<u8>, c: seq<u8>, at: nat, px: Prefixes, size: OpSize, e: Status, f: Status)
    requires at <= |b| && at <= |c|
    requires MovImm(b, at, px, size, e).Got? && Shares(b, c, MovImm(b, at, px, size, e).next)
    ensures MovImm(c, at, px, size, f) == Cut(MovImm(b, at, px, size, e), c, f)
  {
    if at < |c| {
      RmImmPrefix(b, c, at + 1, px, SplitModRm(b[at]), Mov, size, ImmSize(size), e, f);
    }
  }

  lemma LeaBodyPrefix(b: seq<u8>, c: seq<u8>, at: nat, px: Prefixes, e: Status, f: Status)
    requires at <= |b| && at <= |c|
    requires LeaBody(b, at, px, e).Got? && Shares(b, c, LeaBody(b, at, px, e).next)
    ensures LeaBody(c, at, px, f) == Cut(LeaBody(b, at, px, e), c, f)
  {
    RegRmPrefix(b, c, at, px, Lea, GprSize(px), e, f);
  }

  lemma PushImmPrefix(b: seq<u8>, c: seq<u8>, at: nat, n: OpSize, e: Status, f: Status)
    requires at <= |b| && at <= |c|
    requires PushImm(b, at, n, e).Got? && Shares(b, c, PushImm(b, at, n, e).next)
    ensures PushImm(c, at, n, f) == Cut(PushImm(b, at, n, e), c, f)
  {
    ReadImmSxPrefix(b, c, at, n, e, f);
  }

  lemma RelBranchPrefix(b: seq<u8>, c: seq<u8>, at: nat, kind: OpKind, cond: Cc, n: OpSize, e: Status, f: Status)
    requires at <= |b| && at <= |c|
    requires RelBranch(b, at, kind, cond, n, e).Got? && Shares(b, c, RelBranch(b, at, kind, cond, n, e).next)
    ensures RelBranch(c, at, kind, cond, n, f) == Cut(RelBranch(b, at, kind, cond, n, e), c, f)
  {
    ReadImmSxPrefix(b, c, at, n, e, f);
  }

  lemma RetImmPrefix(b: seq<u8>, c: seq<u8>, at: nat, e: Status, f: Status)
    requires at <= |b| && at <= |c|
    requires RetImm(b, at, e).Got? && Shares(b, c, RetImm(b, at, e).next)
    ensures RetImm(c, at, f) == Cut(RetImm(b, at, e), c, f)
  {
    assert Span(2) == 0x1_0000;
    ReadLePrefix(b, c, at, 2, e, f);
  }

  /** The condition a two-byte opcode names is the same in every buffer that holds its second byte. */
  lemma TwoByteIs(b: seq<u8>, c: seq<u8>, at: nat, e: Status, f: Status) returns (cc: Cc)
    requires at < |b| && at < |c| && b[at] == c[at] && TwoByte(b, at, e).Got?
    ensures TwoByte(b, at, e) == RelBranch(b, at + 1, Jcc, cc, 4, e)
    ensures TwoByte(c, at, f) == RelBranch(c, at + 1, Jcc, cc, 4, f)
  {
    cc := CcOf(b[at] - 0x80);
  }

  lemma TwoBytePrefix(b: seq<u8>, c: seq<u8>, at: nat, e: Status, f: Status)
    requires at <= |b| && at <= |c|
    requires TwoByte(b, at, e).Got? && Shares(b, c, TwoByte(b, at, e).next)
    ensures TwoByte(c, at, f) == Cut(TwoByte(b, at, e), c, f)
  {
    if at < |c| {
      var cc := TwoByteIs(b, c, at, e, f);
      RelBranchPrefix(b, c, at + 1, Jcc, cc, 4, e, f);
    }
  }

  lemma HighOpcodePrefix(b: seq<u8>, c: seq<u8>, at: nat, px: Prefixes, opc: u8, e: Status, f: Status)
    requires at <= |b| && at <= |c|
    requires HighOpcode(b, at, px, opc, e).Got? && Shares(b, c, HighOpcode(b, at, px, opc, e).next)
    ensures HighOpcode(c, at, px, opc, f) == Cut(HighOpcode(b, at, px, opc, e), c, f)
  {
    if opc == 0xA8 || opc == 0xA9 {
      var size: OpSize := if opc == 0xA8 then 1 else GprSize(px);
      RegImmPrefix(b, c, at, Test, size, 0, ImmSize(size), e, f);
    } else if 0xB0 <= opc <= 0xB7 {
      RegImmPrefix(b, c, at, Mov, 1, CombineReg(px.RexB(), opc - 0xB0), 1, e, f);
    } else if 0xB8 <= opc <= 0xBF {
      RegImmPrefix(b, c, at, Mov, GprSize(px), CombineReg(px.RexB(), opc - 0xB8), GprSize(px), e, f);
    } else if opc == 0xC2 {
      RetImmPrefix(b, c, at, e, f);
    } else if opc == 0xC6 {
      MovImmPrefix(b, c, at, px, 1, e, f);
    } else if opc == 0xC7 {
      MovImmPrefix(b, c, at, px, GprSize(px), e, f);
    } else if opc == 0xE8 {
      RelBranchPrefix(b, c, at, Call, Always, 4, e, f);
    } else if opc == 0xE9 {
      RelBranchPrefix(b, c, at, Jmp, Always, 4, e, f);
    } else if opc == 0xEB {
      RelBranchPrefix(b, c, at, Jmp, Always, 1, e, f);
    } else if opc == 0xF6 || opc == 0xF7 {
      Group3Prefix(b, c, at, px, opc, e, f);
    } else if opc == 0xFE || opc == 0xFF {
      Group45Prefix(b, c, at, px, opc, e, f);
    }
  }

  lemma MoveOpcodePrefix(b: seq<u8>, c: seq<u8>, at: nat, px: Prefixes, opc: u8, e: Status, f: Status)
    requires at <= |b| && at <= |c| && 0x84 <= opc <= 0x8D
    requires MoveOpcode(b, at, px, opc, e).Got? && Shares(b, c, MoveOpcode(b, at, px, opc, e).next)
    ensures MoveOpcode(c, at, px, opc, f) == Cut(MoveOpcode(b, at, px, opc, e), c, f)
  {
    var size: OpSize := if opc % 2 == 0 then 1 else GprSize(px);
    if opc < 0x8A {
      RmRegPrefix(b, c, at, px, if opc < 0x86 then Test else if opc < 0x88 then Xchg else Mov, size, e, f);
    } else if opc < 0x8C {
      RegRmPrefix(b, c, at, px, Mov, size, e, f);
    } else {
      LeaBodyPrefix(b, c, at, px, e, f);
    }
  }

  lemma LowOpcodePrefix(b: seq<u8>, c: seq<u8>, at: nat, px: Prefixes, opc: u8, e: Status, f: Status)
    requires at <= |b| && at <= |c|
    requires LowOpcode(b, at, px, opc, e).Got? && Shares(b, c, LowOpcode(b, at, px, opc, e).next)
    ensures LowOpcode(c, at, px, opc, f) == Cut(LowOpcode(b, at, px, opc, e), c, f)
  {
    if opc <= 0x3D && opc % 8 < 6 {
      AluPrimaryPrefix(b, c, at, px, opc / 8, opc % 8, e, f);
    } else if opc == 0x0F {
      TwoBytePrefix(b, c, at, e, f);
    } else if opc == 0x68 {
      PushImmPrefix(b, c, at, 4, e, f);
    } else if opc == 0x6A {
      PushImmPrefix(b, c, at, 1, e, f);
    } else if 0x70 <= opc <= 0x7F {
      RelBranchPrefix(b, c, at, Jcc, CcOf(opc - 0x70), 1, e, f);
    } else if opc == 0x80 || opc == 0x81 || opc == 0x83 {
      Group1Prefix(b, c, at, px, opc, e, f);
    } else if 0x84 <= opc <= 0x8D {
      MoveOpcodePrefix(b, c, at, px, opc, e, f);
    }
  }

  lemma AfterPrefixesPrefix(b: seq<u8>, c: seq<u8>, at: nat, px: Prefixes, e: Status, f: Status)
    requires at <= |b| && at <= |c|
    requires AfterPrefixes(b, at, px, e).Got? && Shares(b, c, AfterPrefixes(b, at, px, e).next)
    ensures AfterPrefixes(c, at, px, f) == Cut(AfterPrefixes(b, at, px, e), c, f)
  {
    if at < |c| {
      if b[at] < 0xA0 {
        LowOpcodePrefix(b, c, at + 1, px, b[at], e, f);
      } else {
        HighOpcodePrefix(b, c, at + 1, px, b[at], e, f);
      }
    }
  }

  lemma DecodeBodyPrefix(b: seq<u8>, c: seq<u8>, e: Status, f: Status)
    requires DecodeBody(b, e).Got? && Shares(b, c, DecodeBody(b, e).next)
    ensures DecodeBody(c, f) == Cut(DecodeBody(b, e), c, f)
  {
    var px := ScanPrefixes(b, 0, NO_PREFIXES, e);
    ScanPrefixesPrefix(b, c, 0, NO_PREFIXES, e, f);
    if ScanPrefixes(c, 0, NO_PREFIXES, f).Got? {
      AfterPrefixesPrefix(b, c, px.next, px.value, e, f);
    }
  }

  /** Whatever the source of bytes, an accepted instruction is decided by its own len bytes, and a source
      that ends inside it reports its own end. */
  lemma DecodedByOwnBytes(b: seq<u8>, c: seq<u8>, rip: u64, e: Status, f: Status)
    requires |b| < 256 && |c| < 256 && DecodeWithSource(b, rip, e).Ready?
    requires Shares(b, c, DecodeWithSource(b, rip, e).insn.len)
    ensures DecodeWithSource(c, rip, f)
         == if |c| >= DecodeWithSource(b, rip, e).insn.len then DecodeWithSource(b, rip, e) else Failed(f)
  {
    DecodeBodyPrefix(b, c, e, f);
  }

  /** decode_bytes: same instruction on every buffer holding those bytes, TruncatedInstruction on every
      proper prefix of them. */
  lemma BytesPrefixFree(b: seq<u8>, c: seq<u8>, rip: u64)
    requires DecodeBytes(b, rip).Ready? && Shares(b, c, DecodeBytes(b, rip).insn.len)
    ensures DecodeBytes(c, rip)
         == if |c| >= DecodeBytes(b, rip).insn.len then DecodeBytes(b, rip) else Failed(TruncatedInstruction)
  {
    var b', c' := if |b| > 15 then b[..15] else b, if |c| > 15 then c[..15] else c;
    if |c| > 0 {
      DecodedByOwnBytes(b', c', rip, TruncatedInstruction, TruncatedInstruction);
    }
  }
}

/** The code stub getMouseRay injects into the game to call the game's own
    cursor-to-direction function: a 42-byte x86-64 template (the string
    literal with its terminating NUL) whose three 64-bit immediates are
    patched in place, byte by byte, little-endian. A small decoder for the
    instructions the stub uses (Intel 64 SDM Vol. 2: REX.W + B8+rd for
    `MOV r64, imm64`, REX.W 83 /5 and /0 ib for `SUB`/`ADD rsp, imm8`, FF /2
    for `CALL rax`, C3 for `RET`) states what the patched stub does. */
module MouseRayStub {
  import opened Bytes
  import opened Wrappers

  const STUB_SIZE: nat := 42

  /** Where the immediates of `mov rax`, `mov rdx` and `mov rcx` start. */
  const FUNCTION_SLOT: nat := 2
  const MOUSE_SLOT: nat := 12
  const RESULTS_SLOT: nat := 22

  /** The part after the three moves: sub rsp,0x48; call rax; add rsp,0x48;
      ret; and the literal's NUL. */
  const Epilogue: seq<byte> := [0x48, 0x83, 0xEC, 0x48, 0xFF, 0xD0, 0x48, 0x83, 0xC4, 0x48, 0xC3, 0x00]

  const Zero64: seq<byte> := [0, 0, 0, 0, 0, 0, 0, 0]

  /** buffer2 before patching. */
  const Template: seq<byte> := [0x48, 0xB8] + Zero64 + [0x48, 0xBA] + Zero64 + [0x48, 0xB9] + Zero64 + Epilogue

  /** The offset getMouseRay adds to the gesture manager pointer to reach
      the mouse position floats. */
  const MOUSE_FLOATS_OFFSET: nat := 0x18

  /** mouseFloats: the pointer read from GESTURE_MANAGER (0 when the read
      fails, since the variable starts at 0), plus 0x18, wrapping. */
  function MouseFloats(read: Option<seq<byte>>): (p: u64)
    requires read.Some? ==> |read.value| == 8
    ensures read.None? ==> p == MOUSE_FLOATS_OFFSET
    ensures read.Some? ==> p == Wrap64(U64Of(read.value) + MOUSE_FLOATS_OFFSET)
  {
    var pointer := if read.Some? then U64Of(read.value) else 0;
    Wrap64(pointer + MOUSE_FLOATS_OFFSET)
  }

  predicate InSlot(i: int, at: nat) {
    at <= i < at + 8
  }

  /** code with the eight bytes at `at` replaced by the encoding of x. */
  function Patch(code: seq<byte>, at: nat, x: u64): (r: seq<byte>)
    requires at + 8 <= |code|
    ensures |r| == |code|
    ensures r[at..at + 8] == Le64(x)
    ensures forall i :: 0 <= i < |code| && !InSlot(i, at) ==> r[i] == code[i]
  {
    code[..at] + Le64(x) + code[at + 8..]
  }

  /** The stub after getMouseRay's 24 byte assignments. */
  function Stub(function_: u64, mouseFloats: u64, results: u64): seq<byte> {
    Patch(Patch(Patch(Template, FUNCTION_SLOT, function_), MOUSE_SLOT, mouseFloats), RESULTS_SLOT, results)
  }

  predicate InAnySlot(i: int) {
    InSlot(i, FUNCTION_SLOT) || InSlot(i, MOUSE_SLOT) || InSlot(i, RESULTS_SLOT)
  }

  /** The patched stub is the template with three immediates: each slot
      decodes to the value written there, and every byte outside the slots
      is the template's. */
  lemma StubSlots(function_: u64, mouseFloats: u64, results: u64)
    ensures |Stub(function_, mouseFloats, results)| == STUB_SIZE
    ensures U64Of(Stub(function_, mouseFloats, results)[FUNCTION_SLOT..FUNCTION_SLOT + 8]) == function_
    ensures U64Of(Stub(function_, mouseFloats, results)[MOUSE_SLOT..MOUSE_SLOT + 8]) == mouseFloats
    ensures U64Of(Stub(function_, mouseFloats, results)[RESULTS_SLOT..RESULTS_SLOT + 8]) == results
    ensures forall i :: 0 <= i < STUB_SIZE && !InAnySlot(i) ==> Stub(function_, mouseFloats, results)[i] == Template[i]
  {
    var s1 := Patch(Template, FUNCTION_SLOT, function_);
    var s2 := Patch(s1, MOUSE_SLOT, mouseFloats);
    var s3 := Patch(s2, RESULTS_SLOT, results);
    assert s3[FUNCTION_SLOT..FUNCTION_SLOT + 8] == s1[FUNCTION_SLOT..FUNCTION_SLOT + 8];
    assert s3[MOUSE_SLOT..MOUSE_SLOT + 8] == s2[MOUSE_SLOT..MOUSE_SLOT + 8];
    Le64RoundTrip(function_, Zero64);
    Le64RoundTrip(mouseFloats, Zero64);
    Le64RoundTrip(results, Zero64);
  }

  /** The general-purpose registers the stub names, by their 3-bit number. */
  datatype Reg = Rax | Rcx | Rdx

  function RegOf(rd: nat): Option<Reg> {
    if rd == 0 then Some(Rax) else if rd == 1 then Some(Rcx) else if rd == 2 then Some(Rdx) else None
  }

  datatype Instr = MovImm64(dst: Reg, imm: u64) | SubRsp(imm8: byte) | AddRsp(imm8: byte) | CallRax | Ret

  /** The instruction at code[pos..] and its length, for the encodings
      above; None for anything else. */
  function DecodeAt(code: seq<byte>, pos: nat): (r: Option<(Instr, nat)>)
    ensures r.Some? ==> 1 <= r.value.1 && pos + r.value.1 <= |code|
  {
    if pos + 10 <= |code| && code[pos] == 0x48 && 0xB8 <= code[pos + 1] < 0xC0 && RegOf(code[pos + 1] - 0xB8).Some? then
      Some((MovImm64(RegOf(code[pos + 1] - 0xB8).value, U64Of(code[pos + 2..pos + 10])), 10))
    else if pos + 4 <= |code| && code[pos] == 0x48 && code[pos + 1] == 0x83 && code[pos + 2] == 0xEC then
      Some((SubRsp(code[pos + 3]), 4))
    else if pos + 4 <= |code| && code[pos] == 0x48 && code[pos + 1] == 0x83 && code[pos + 2] == 0xC4 then
      Some((AddRsp(code[pos + 3]), 4))
    else if pos + 2 <= |code| && code[pos] == 0xFF && code[pos + 1] == 0xD0 then Some((CallRax, 2))
    else if pos + 1 <= |code| && code[pos] == 0xC3 then Some((Ret, 1))
    else None
  }

  /** The instructions from code[pos..] up to and including the first
      `ret`; None if an unknown encoding comes first or code ends before. */
  function DisassembleFrom(code: seq<byte>, pos: nat): Option<seq<Instr>>
    decreases |code| - pos
  {
    match DecodeAt(code, pos)
    case None => None
    case Some((instr, len)) =>
      if instr == Ret then Some([Ret])
      else
        match DisassembleFrom(code, pos + len)
        case None => None
        case Some(rest) => Some([instr] + rest)
  }

  function Disassemble(code: seq<byte>): Option<seq<Instr>> {
    DisassembleFrom(code, 0)
  }

  /** The program the patched stub is: load the function into rax,
      mouseFloats into rdx and results into rcx, reserve 0x48 bytes of
      stack, call rax, release the stack and return. */
  function StubProgram(function_: u64, mouseFloats: u64, results: u64): seq<Instr> {
    [MovImm64(Rax, function_), MovImm64(Rdx, mouseFloats), MovImm64(Rcx, results)] + EpilogueProgram
  }

  const EpilogueProgram: seq<Instr> := [SubRsp(0x48), CallRax, AddRsp(0x48), Ret]

  /** One decoded instruction in front of a program that disassembles. */
  lemma DisassembleStep(code: seq<byte>, pos: nat, instr: Instr, len: nat, rest: seq<Instr>)
    requires DecodeAt(code, pos) == Some((instr, len)) && instr != Ret
    requires DisassembleFrom(code, pos + len) == Some(rest)
    ensures DisassembleFrom(code, pos) == Some([instr] + rest)
  {
  }

  lemma RetAt(code: seq<byte>, pos: nat)
    requires pos < |code| && code[pos] == 0xC3
    ensures DisassembleFrom(code, pos) == Some([Ret])
  {
    assert DecodeAt(code, pos) == Some((Ret, 1));
  }

  lemma AddRspAt(code: seq<byte>, pos: nat, rest: seq<Instr>)
    requires pos + 4 <= |code| && code[pos] == 0x48 && code[pos + 1] == 0x83 && code[pos + 2] == 0xC4
    requires DisassembleFrom(code, pos + 4) == Some(rest)
    ensures DisassembleFrom(code, pos) == Some([AddRsp(code[pos + 3])] + rest)
  {
    assert DecodeAt(code, pos) == Some((AddRsp(code[pos + 3]), 4));
    DisassembleStep(code, pos, AddRsp(code[pos + 3]), 4, rest);
  }

  lemma CallRaxAt(code: seq<byte>, pos: nat, rest: seq<Instr>)
    requires pos + 2 <= |code| && code[pos] == 0xFF && code[pos + 1] == 0xD0
    requires DisassembleFrom(code, pos + 2) == Some(rest)
    ensures DisassembleFrom(code, pos) == Some([CallRax] + rest)
  {
    assert DecodeAt(code, pos) == Some((CallRax, 2));
    DisassembleStep(code, pos, CallRax, 2, rest);
  }

  lemma SubRspAt(code: seq<byte>, pos: nat, rest: seq<Instr>)
    requires pos + 4 <= |code| && code[pos] == 0x48 && code[pos + 1] == 0x83 && code[pos + 2] == 0xEC
    requires DisassembleFrom(code, pos + 4) == Some(rest)
    ensures DisassembleFrom(code, pos) == Some([SubRsp(code[pos + 3])] + rest)
  {
    assert DecodeAt(code, pos) == Some((SubRsp(code[pos + 3]), 4));
    DisassembleStep(code, pos, SubRsp(code[pos + 3]), 4, rest);
  }

  /** A `MOV r64, imm64` in front of a program that disassembles. */
  lemma MovAt(code: seq<byte>, pos: nat, rd: nat, rest: seq<Instr>)
    requires pos + 10 <= |code| && code[pos] == 0x48 && rd <= 2 && code[pos + 1] == 0xB8 + rd
    requires DisassembleFrom(code, pos + 10) == Some(rest)
    ensures DisassembleFrom(code, pos) == Some([MovImm64(RegOf(rd).value, U64Of(code[pos + 2..pos + 10]))] + rest)
  {
    DisassembleStep(code, pos, MovImm64(RegOf(rd).value, U64Of(code[pos + 2..pos + 10])), 10, rest);
  }

  /** The epilogue, wherever it sits in code. */
  lemma EpilogueDisassembly(code: seq<byte>, pos: nat)
    requires pos + |Epilogue| <= |code| && forall i :: 0 <= i < |Epilogue| ==> code[pos + i] == Epilogue[i]
    ensures DisassembleFrom(code, pos) == Some(EpilogueProgram)
  {
    assert code[pos] == 0x48 && code[pos + 1] == 0x83 && code[pos + 2] == 0xEC && code[pos + 3] == 0x48 by {
      assert Epilogue[0] == 0x48 && Epilogue[1] == 0x83 && Epilogue[2] == 0xEC && Epilogue[3] == 0x48;
    }
    assert code[pos + 4] == 0xFF && code[pos + 5] == 0xD0 by {
      assert Epilogue[4] == 0xFF && Epilogue[5] == 0xD0;
    }
    assert code[pos + 6] == 0x48 && code[pos + 7] == 0x83 && code[pos + 8] == 0xC4 && code[pos + 9] == 0x48 by {
      assert Epilogue[6] == 0x48 && Epilogue[7] == 0x83 && Epilogue[8] == 0xC4 && Epilogue[9] == 0x48;
    }
    assert code[pos + 10] == 0xC3 by {
      assert Epilogue[10] == 0xC3;
    }
    RetAt(code, pos + 10);
    AddRspAt(code, pos + 6, [Ret]);
    CallRaxAt(code, pos + 4, [AddRsp(0x48)] + [Ret]);
    SubRspAt(code, pos, [CallRax] + ([AddRsp(0x48)] + [Ret]));
    assert [SubRsp(0x48)] + ([CallRax] + ([AddRsp(0x48)] + [Ret])) == EpilogueProgram;
  }

  /** Any bytes laid out as the stub disassemble to StubProgram. */
  lemma DisassembleLaidOut(s: seq<byte>, function_: u64, mouseFloats: u64, results: u64)
    requires |s| == STUB_SIZE && forall i :: 0 <= i < |Epilogue| ==> s[30 + i] == Epilogue[i]
    requires s[0] == 0x48 && s[1] == 0xB8 && U64Of(s[2..10]) == function_
    requires s[10] == 0x48 && s[11] == 0xBA && U64Of(s[12..20]) == mouseFloats
    requires s[20] == 0x48 && s[21] == 0xB9 && U64Of(s[22..30]) == results
    ensures Disassemble(s) == Some(StubProgram(function_, mouseFloats, results))
  {
    EpilogueDisassembly(s, 30);
    MovAt(s, 20, 1, EpilogueProgram);
    var r2 := [MovImm64(Rcx, results)] + EpilogueProgram;
    MovAt(s, 10, 2, r2);
    MovAt(s, 0, 0, [MovImm64(Rdx, mouseFloats)] + r2);
    assert [MovImm64(Rax, function_)] + ([MovImm64(Rdx, mouseFloats)] + r2) == StubProgram(function_, mouseFloats, results);
  }

  /** Decoding the patched stub gives back StubProgram, with the three
      patched values as the immediates. */
  lemma StubDisassembly(function_: u64, mouseFloats: u64, results: u64)
    ensures Disassemble(Stub(function_, mouseFloats, results)) == Some(StubProgram(function_, mouseFloats, results))
  {
    var s := Stub(function_, mouseFloats, results);
    StubSlots(function_, mouseFloats, results);
    assert forall i :: 0 <= i < |Epilogue| ==> s[30 + i] == Template[30 + i] == Epilogue[i];
    assert s[0] == Template[0] && s[1] == Template[1] && s[10] == Template[10];
    assert s[11] == Template[11] && s[20] == Template[20] && s[21] == Template[21];
    DisassembleLaidOut(s, function_, mouseFloats, results);
  }

  /** Under the Windows x64 calling convention a call needs rsp 16-byte
      aligned and 32 bytes of shadow space above it, and a thread entry
      starts with rsp one return address (8 bytes) below a 16-byte
      boundary. Depth is how far rsp is below its value at entry. */
  function DepthAfter(instr: Instr, depth: int): int {
    match instr
    case SubRsp(k) => depth + k
    case AddRsp(k) => depth - k
    case _ => depth
  }

  /** The depth at the end of prog and whether every call in it finds an
      aligned stack with room for the shadow space. */
  function RunStack(prog: seq<Instr>, depth: int): (bool, int) {
    if prog == [] then (true, depth)
    else
      var callOk := prog[0] == CallRax ==> (depth + 8) % 16 == 0 && depth >= 32;
      var rest := RunStack(prog[1..], DepthAfter(prog[0], depth));
      (callOk && rest.0, rest.1)
  }

  /** The stub's arguments follow the convention (rcx is the first
      argument, rdx the second), its one call is made on an aligned stack
      with shadow space, and it returns with the stack as it found it. */
  lemma StubFollowsCallingConvention(function_: u64, mouseFloats: u64, results: u64)
    ensures RunStack(StubProgram(function_, mouseFloats, results), 0) == (true, 0)
    ensures StubProgram(function_, mouseFloats, results)[2] == MovImm64(Rcx, results)
    ensures StubProgram(function_, mouseFloats, results)[1] == MovImm64(Rdx, mouseFloats)
  {
    var p4: seq<Instr> := [Ret];
    assert RunStack(p4, 0) == (true, 0);
    var p3 := [AddRsp(0x48)] + p4;
    assert p3[1..] == p4 && RunStack(p3, 0x48) == (true, 0);
    var p2 := [CallRax] + p3;
    assert p2[1..] == p3 && RunStack(p2, 0x48) == (true, 0);
    var p1 := [SubRsp(0x48)] + p2;
    assert p1[1..] == p2 && RunStack(p1, 0) == (true, 0);
    assert p1 == EpilogueProgram;
    var e := EpilogueProgram;
    RunStackSkip(MovImm64(Rcx, results), e, 0);
    RunStackSkip(MovImm64(Rdx, mouseFloats), [MovImm64(Rcx, results)] + e, 0);
    RunStackSkip(MovImm64(Rax, function_), [MovImm64(Rdx, mouseFloats)] + ([MovImm64(Rcx, results)] + e), 0);
    assert StubProgram(function_, mouseFloats, results)
        == [MovImm64(Rax, function_)] + ([MovImm64(Rdx, mouseFloats)] + ([MovImm64(Rcx, results)] + e));
  }

  /** An instruction that is not a call and leaves the stack alone does not
      change the run. */
  lemma RunStackSkip(instr: Instr, rest: seq<Instr>, depth: int)
    requires instr.MovImm64?
    ensures RunStack([instr] + rest, depth) == RunStack(rest, depth)
  {
    assert ([instr] + rest)[1..] == rest;
  }

  /** getMouseRay's assignments `buffer2[at + j] = (x >> 8*j) & 0xff` for
      j = 0 .. 7, done in place. */
  method PutLE64(buffer: array<byte>, at: nat, x: u64)
    requires at + 8 <= buffer.Length
    modifies buffer
    ensures buffer[..] == Patch(old(buffer[..]), at, x)
  {
    var j := 0;
    while j < 8
      invariant 0 <= j <= 8
      invariant forall i :: 0 <= i < buffer.Length && !(at <= i < at + j) ==> buffer[i] == old(buffer[i])
      invariant forall i :: 0 <= i < j ==> buffer[at + i] == Le64(x)[i]
    {
      EncodeByteAt(x, 8, j);
      buffer[at + j] := (x / Pow256(j)) % 0x100;
      j := j + 1;
    }
    var patched := Patch(old(buffer[..]), at, x);
    forall i | 0 <= i < buffer.Length
      ensures buffer[i] == patched[i]
    {
      if InSlot(i, at) {
        assert patched[i] == patched[at..at + 8][i - at];
      }
    }
  }

  /** buffer2 as getMouseRay builds it: the template, then the three
      immediates patched in. */
  method BuildStub(function_: u64, mouseFloats: u64, results: u64) returns (buffer: array<byte>)
    ensures fresh(buffer)
    ensures buffer[..] == Stub(function_, mouseFloats, results)
  {
    buffer := new byte[STUB_SIZE](i requires 0 <= i < STUB_SIZE => Template[i]);
    assert buffer[..] == Template;
    PutLE64(buffer, FUNCTION_SLOT, function_);
    PutLE64(buffer, MOUSE_SLOT, mouseFloats);
    PutLE64(buffer, RESULTS_SLOT, results);
  }
}

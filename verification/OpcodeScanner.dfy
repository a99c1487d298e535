/** The scanner of deployments/src/v1/preflight.ts that looks for CALLCODE, DELEGATECALL and
    SELFDESTRUCT in a runtime, and what it means for every execution of that runtime. */
module OpcodeScanner {
  import opened Results

  type byte = x: int | 0 <= x < 256

  const JUMPDEST: byte := 0x5b
  const PUSH0: byte := 0x5f
  const PUSH1: byte := 0x60
  const PUSH32: byte := 0x7f
  const CALLCODE: byte := 0xf2
  const DELEGATECALL: byte := 0xf4
  const INVALID: byte := 0xfe
  const SELFDESTRUCT: byte := 0xff

  predicate Forbidden(op: byte) {
    op == CALLCODE || op == DELEGATECALL || op == SELFDESTRUCT
  }

  /** What the machine does, without the scanner's names: PUSH1 to PUSH32 carry 1 to 32 immediate bytes. */
  function Following(code: seq<byte>, pc: nat): nat
    requires pc < |code|
  {
    if 0x60 <= code[pc] <= 0x7f then pc + 1 + (code[pc] - 0x5f) else pc + 1
  }

  /** Where the scanner looks next: at the instruction that follows the one at `pc`. */
  function After(code: seq<byte>, pc: nat): (next: nat)
    requires pc < |code|
    ensures pc < next && next == Following(code, pc)
  {
    if PUSH1 <= code[pc] <= PUSH32 then pc + (code[pc] - PUSH0) + 1 else pc + 1
  }

  /** Some instruction from `pc` on, in sequence, is a JUMPDEST. */
  predicate HasJumpdest(code: seq<byte>, pc: nat)
    decreases |code| - pc
  {
    pc < |code| && (code[pc] == JUMPDEST || HasJumpdest(code, After(code, pc)))
  }

  /** The first INVALID instruction from `pc` on that no JUMPDEST instruction follows; the end if none. */
  function BoundaryFrom(code: seq<byte>, pc: nat): nat
    decreases |code| - pc
  {
    if pc >= |code| then |code|
    else if code[pc] == INVALID && !HasJumpdest(code, After(code, pc)) then pc
    else BoundaryFrom(code, After(code, pc))
  }

  /** The first forbidden instruction from `pc` on, before the boundary. */
  function ForbiddenFrom(code: seq<byte>, pc: nat, boundary: nat): Option<byte>
    decreases |code| - pc
  {
    if pc >= |code| || pc >= boundary then None
    else if Forbidden(code[pc]) then Some(code[pc])
    else ForbiddenFrom(code, After(code, pc), boundary)
  }

  function ForbiddenOpcode(code: seq<byte>): Option<byte> {
    ForbiddenFrom(code, 0, BoundaryFrom(code, 0))
  }

  /** The two passes of the scanner: the first moves the boundary back and forth, the second searches. */
  method ForbiddenImmutableQuoteOpcode(bytes: seq<byte>) returns (r: Option<byte>)
    ensures r == ForbiddenOpcode(bytes)
  {
    var suffixBoundary := |bytes|;
    var index := 0;
    while index < |bytes|
      invariant 0 <= index && 0 <= suffixBoundary <= |bytes|
      invariant BoundaryFrom(bytes, 0)
             == if suffixBoundary == |bytes| || HasJumpdest(bytes, index) then BoundaryFrom(bytes, index) else suffixBoundary
    {
      var opcode := bytes[index];
      if PUSH1 <= opcode <= PUSH32 {
        index := index + (opcode - PUSH0) + 1;
        continue;
      }
      if opcode == JUMPDEST {
        suffixBoundary := |bytes|;
      } else if opcode == INVALID && suffixBoundary == |bytes| {
        suffixBoundary := index;
      }
      index := index + 1;
    }

    index := 0;
    while index < |bytes|
      invariant 0 <= index
      invariant ForbiddenOpcode(bytes) == ForbiddenFrom(bytes, index, suffixBoundary)
    {
      var opcode := bytes[index];
      if index >= suffixBoundary {
        return None;
      }
      if Forbidden(opcode) {
        return Some(opcode);
      }
      index := index + if PUSH1 <= opcode <= PUSH32 then opcode - PUSH0 + 1 else 1;
    }
    return None;
  }

  // ---------------------------------------------------------------- instruction starts

  /** `pc` is where some instruction starts when the code is read from `from`. */
  ghost predicate Starts(code: seq<byte>, from: nat, pc: nat)
    decreases |code| - from
  {
    from == pc || (from < |code| && from < pc && Starts(code, Following(code, from), pc))
  }

  lemma {:induction false} StartsExtends(code: seq<byte>, from: nat, pc: nat)
    requires Starts(code, from, pc) && pc < |code|
    ensures Starts(code, from, After(code, pc))
    decreases |code| - from
  {
    if from != pc {
      StartsExtends(code, After(code, from), pc);
    }
  }

  /** Two instruction starts are never inside one another's instruction. */
  lemma {:induction false} StartsOrdered(code: seq<byte>, from: nat, a: nat, b: nat)
    requires Starts(code, from, a) && Starts(code, from, b) && a < b && a < |code|
    ensures After(code, a) <= b && Starts(code, After(code, a), b)
    decreases |code| - from
  {
    if from == a {
      StartsAtLeast(code, After(code, a), b);
    } else {
      StartsOrdered(code, After(code, from), a, b);
    }
  }

  lemma {:induction false} StartsAtLeast(code: seq<byte>, from: nat, pc: nat)
    requires Starts(code, from, pc)
    ensures from <= pc
  {
  }

  lemma {:induction false} HasJumpdestMeans(code: seq<byte>, from: nat)
    ensures HasJumpdest(code, from) <==> exists pc: nat :: Starts(code, from, pc) && pc < |code| && code[pc] == 0x5b
    decreases |code| - from
  {
    if from < |code| {
      var next := After(code, from);
      HasJumpdestMeans(code, next);
      if HasJumpdest(code, from) {
        if code[from] == 0x5b {
          assert Starts(code, from, from);
        } else {
          var pc: nat :| Starts(code, next, pc) && pc < |code| && code[pc] == 0x5b;
          StartsAtLeast(code, next, pc);
          assert Starts(code, from, pc);
        }
      }
      if pc: nat :| Starts(code, from, pc) && pc < |code| && code[pc] == 0x5b {
        if pc != from {
          assert Starts(code, next, pc);
        }
      }
    } else if pc: nat :| Starts(code, from, pc) && pc < |code| && code[pc] == 0x5b {
      StartsAtLeast(code, from, pc);
    }
  }

  /** An INVALID instruction with no JUMPDEST instruction after it. */
  ghost predicate OpensSuffix(code: seq<byte>, pc: nat) {
    && Starts(code, 0, pc) && pc < |code| && code[pc] == 0xfe
    && forall d: nat :: Starts(code, 0, d) && pc < d < |code| ==> code[d] != 0x5b
  }

  /** The boundary is the first instruction that opens the suffix, or the end of the code if none does. */
  lemma BoundaryIsFirstSuffix(code: seq<byte>)
    ensures
      var b := BoundaryFrom(code, 0);
      && b <= |code|
      && (b < |code| ==> OpensSuffix(code, b))
      && (forall pc: nat :: OpensSuffix(code, pc) ==> b <= pc)
  {
    BoundaryFound(code, 0);
    forall pc: nat | OpensSuffix(code, pc)
      ensures BoundaryFrom(code, 0) <= pc
    {
      BoundaryNotAfter(code, 0, pc);
    }
  }

  lemma {:induction false} BoundaryFound(code: seq<byte>, from: nat)
    requires Starts(code, 0, from)
    ensures from <= |code| ==> from <= BoundaryFrom(code, from)
    ensures BoundaryFrom(code, from) <= |code|
    ensures BoundaryFrom(code, from) < |code| ==> OpensSuffix(code, BoundaryFrom(code, from))
    decreases |code| - from
  {
    if from < |code| {
      StartsExtends(code, 0, from);
      if code[from] == 0xfe && !HasJumpdest(code, After(code, from)) {
        HasJumpdestMeans(code, After(code, from));
        forall d: nat | Starts(code, 0, d) && from < d < |code|
          ensures code[d] != 0x5b
        {
          StartsOrdered(code, 0, from, d);
        }
      } else {
        BoundaryFound(code, After(code, from));
      }
    }
  }

  lemma {:induction false} BoundaryNotAfter(code: seq<byte>, from: nat, pc: nat)
    requires Starts(code, 0, from) && from <= pc && OpensSuffix(code, pc)
    ensures BoundaryFrom(code, from) <= pc
    decreases |code| - from
  {
    StartsExtends(code, 0, from);
    if from == pc {
      HasJumpdestMeans(code, After(code, from));
      if HasJumpdest(code, After(code, from)) {
        var d: nat :| Starts(code, After(code, from), d) && d < |code| && code[d] == 0x5b;
        StartsAtLeast(code, After(code, from), d);
        StartsJoin(code, 0, After(code, from), d);
      }
    } else {
      StartsOrdered(code, 0, from, pc);
      BoundaryNotAfter(code, After(code, from), pc);
    }
  }

  lemma {:induction false} StartsJoin(code: seq<byte>, from: nat, middle: nat, pc: nat)
    requires Starts(code, from, middle) && Starts(code, middle, pc)
    ensures Starts(code, from, pc)
    decreases |code| - from
  {
    if from != middle {
      StartsJoin(code, After(code, from), middle, pc);
      StartsAtLeast(code, middle, pc);
      StartsAtLeast(code, After(code, from), middle);
    }
  }

  /** The scanner answers none exactly when no instruction before the boundary is forbidden. */
  lemma {:induction false} SearchIsExact(code: seq<byte>, from: nat, boundary: nat)
    ensures ForbiddenFrom(code, from, boundary).None? <==>
              forall pc: nat :: Starts(code, from, pc) && pc < |code| && pc < boundary ==>
                                code[pc] != 0xf2 && code[pc] != 0xf4 && code[pc] != 0xff
    decreases |code| - from
  {
    if from < |code| && from < boundary {
      var next := After(code, from);
      SearchIsExact(code, next, boundary);
      assert Starts(code, from, from);
      forall pc: nat | Starts(code, next, pc)
        ensures Starts(code, from, pc)
      {
        StartsAtLeast(code, next, pc);
      }
    } else {
      forall pc: nat | Starts(code, from, pc)
        ensures from <= pc
      {
        StartsAtLeast(code, from, pc);
      }
    }
  }

  // ---------------------------------------------------------------- executions

  /** The valid jump destinations of a program, as section 9.4.3 of the Ethereum Yellow Paper defines them. */
  function JumpDestinations(code: seq<byte>, i: nat): set<nat>
    decreases |code| - i
  {
    if i >= |code| then {}
    else if code[i] == 0x5b then {i} + JumpDestinations(code, Following(code, i))
    else JumpDestinations(code, Following(code, i))
  }

  /** They are the instruction starts that hold a JUMPDEST. */
  lemma {:induction false} DestinationsAreStarts(code: seq<byte>, i: nat, d: nat)
    ensures d in JumpDestinations(code, i) <==> Starts(code, i, d) && d < |code| && code[d] == 0x5b
    decreases |code| - i
  {
    if i < |code| {
      var next := After(code, i);
      DestinationsAreStarts(code, next, d);
      if Starts(code, next, d) {
        StartsAtLeast(code, next, d);
      }
    } else if Starts(code, i, d) {
      StartsAtLeast(code, i, d);
    }
  }

  /** One step of an execution. INVALID halts; every other instruction may fall through or jump, so that
      this allows at least every step of the machine whatever its stack, memory, gas and storage. */
  ghost predicate MayStep(code: seq<byte>, pc: nat, next: nat) {
    && pc < |code| && code[pc] != 0xfe
    && (next == Following(code, pc) || next in JumpDestinations(code, 0))
  }

  /** The program counters of an execution from the start of the code. */
  ghost predicate Execution(code: seq<byte>, trace: seq<nat>) {
    && 0 < |trace| && trace[0] == 0
    && forall k :: 0 <= k < |trace| - 1 ==> MayStep(code, trace[k], trace[k + 1])
  }

  /** Executions stay on instruction starts and never pass the boundary. */
  lemma {:induction false} StaysBeforeBoundary(code: seq<byte>, trace: seq<nat>, k: nat)
    requires Execution(code, trace) && k < |trace|
    ensures Starts(code, 0, trace[k])
    ensures trace[k] < |code| ==> trace[k] <= BoundaryFrom(code, 0)
  {
    BoundaryIsFirstSuffix(code);
    var b := BoundaryFrom(code, 0);
    if 0 < k {
      StaysBeforeBoundary(code, trace, k - 1);
      var pc, next := trace[k - 1], trace[k];
      assert MayStep(code, pc, next);
      if next in JumpDestinations(code, 0) {
        DestinationsAreStarts(code, 0, next);
        assert b < |code| ==> next <= b;
      } else {
        StartsExtends(code, 0, pc);
        if b < |code| {
          StartsOrdered(code, 0, pc, b);
        }
      }
    }
  }

  /** Soundness: when the scanner finds nothing, no execution ever stands on CALLCODE, DELEGATECALL or SELFDESTRUCT. */
  lemma ScannerIsSound(code: seq<byte>, trace: seq<nat>, k: nat)
    requires ForbiddenOpcode(code) == None
    requires Execution(code, trace) && k < |trace| && trace[k] < |code|
    ensures code[trace[k]] != 0xf2 && code[trace[k]] != 0xf4 && code[trace[k]] != 0xff
  {
    StaysBeforeBoundary(code, trace, k);
    BoundaryIsFirstSuffix(code);
    SearchIsExact(code, 0, BoundaryFrom(code, 0));
  }

  /** What the scanner reports is a forbidden instruction before the boundary, and none stands before it. */
  lemma {:induction false} ReportIsFirst(code: seq<byte>, from: nat, boundary: nat)
    requires ForbiddenFrom(code, from, boundary).Some?
    ensures exists pc: nat :: && Starts(code, from, pc) && pc < |code| && pc < boundary
                         && code[pc] in {0xf2, 0xf4, 0xff} && ForbiddenFrom(code, from, boundary) == Some(code[pc])
                         && forall q: nat :: Starts(code, from, q) && q < pc ==> code[q] !in {0xf2, 0xf4, 0xff}
    decreases |code| - from
  {
    if Forbidden(code[from]) {
      assert Starts(code, from, from);
      forall q: nat | Starts(code, from, q)
        ensures from <= q
      {
        StartsAtLeast(code, from, q);
      }
    } else {
      var next := After(code, from);
      ReportIsFirst(code, next, boundary);
      var pc: nat :| && Starts(code, next, pc) && pc < |code| && pc < boundary
                && code[pc] in {0xf2, 0xf4, 0xff} && ForbiddenFrom(code, next, boundary) == Some(code[pc])
                && forall q: nat :: Starts(code, next, q) && q < pc ==> code[q] !in {0xf2, 0xf4, 0xff};
      StartsAtLeast(code, next, pc);
      assert Starts(code, from, pc);
    }
  }

  /** `pc` is an instruction that no suffix has begun at or before. */
  ghost predicate InProgram(code: seq<byte>, pc: nat) {
    Starts(code, 0, pc) && pc < |code| && forall q: nat :: OpensSuffix(code, q) ==> pc < q
  }

  /** The whole answer, without the boundary the scanner computes: none exactly when no instruction in front of
      the first suffix is CALLCODE, DELEGATECALL or SELFDESTRUCT, and otherwise the first that is. */
  lemma ScannerIsExact(code: seq<byte>)
    ensures ForbiddenOpcode(code).None? <==> forall pc: nat :: InProgram(code, pc) ==> code[pc] !in {0xf2, 0xf4, 0xff}
    ensures ForbiddenOpcode(code).Some? ==>
              exists pc: nat :: && InProgram(code, pc) && code[pc] in {0xf2, 0xf4, 0xff} && ForbiddenOpcode(code) == Some(code[pc])
                                && forall q: nat :: InProgram(code, q) && q < pc ==> code[q] !in {0xf2, 0xf4, 0xff}
  {
    var b := BoundaryFrom(code, 0);
    BoundaryIsFirstSuffix(code);
    SearchIsExact(code, 0, b);
    assert forall pc: nat :: InProgram(code, pc) <==> Starts(code, 0, pc) && pc < |code| && pc < b;
    hide InProgram;
    if ForbiddenOpcode(code).Some? {
      ReportIsFirst(code, 0, b);
      var pc: nat :| && Starts(code, 0, pc) && pc < |code| && pc < b
                && code[pc] in {0xf2, 0xf4, 0xff} && ForbiddenFrom(code, 0, b) == Some(code[pc])
                && forall q: nat :: Starts(code, 0, q) && q < pc ==> code[q] !in {0xf2, 0xf4, 0xff};
      assert InProgram(code, pc);
    }
  }
}

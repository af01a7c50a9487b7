/** The ancillary-data macros of pipeline/wasix-compat.h, against section 20.3 of RFC 3542.
    `size_t` and pointers are 32 bits wide on the target, and their arithmetic wraps. */
module Cmsg {
  import opened Wrappers

  const LIMIT := 0x1_0000_0000
  const WORD := 4
  const HEADER := 12

  /** `((length) + sizeof(size_t) - 1) & ~(sizeof(size_t) - 1)` */
  function AlignMask(length: bv32): bv32 {
    (length + 4 - 1) & !(4 - 1)
  }

  /** The same with the mask written as a subtraction of the remainder. */
  function Align(length: nat): nat {
    var sum := (length + WORD - 1) % LIMIT;
    sum - sum % WORD
  }

  lemma MaskSubtractsRemainder(length: bv32)
    ensures AlignMask(length) == (length + 3) - (length + 3) % 4
  {
  }

  /** The mask form is itself the least multiple of the word size not below the length. */
  lemma MaskIsLeastMultiple(length: bv32, m: bv32)
    ensures AlignMask(length) % 4 == 0
    ensures length <= AlignMask(length) <==> length <= 0xFFFF_FFFC
    ensures length <= m && m % 4 == 0 ==> AlignMask(length) <= m
  {
  }

  function CmsgLen(length: nat): nat {
    (Align(HEADER) + length) % LIMIT
  }

  function CmsgSpace(length: nat): nat {
    (Align(HEADER) + Align(length)) % LIMIT
  }

  /** Rounding up is the least multiple of the word size not below the length, exactly for the
      lengths whose sum does not wrap. */
  lemma AlignIsLeastMultipleExactly(length: nat)
    requires length < LIMIT
    ensures Align(length) % WORD == 0
    ensures length <= Align(length) <==> length + WORD <= LIMIT
    ensures forall m :: length <= m && m % WORD == 0 ==> Align(length) <= m
    ensures length + WORD > LIMIT ==> Align(length) == 0
  {
  }

  // ---- Stepping through a message ----

  /** The control buffer of a message, which does not reach past the address space. */
  datatype Message = Message(control: nat, controllen: nat) {
    function End(): nat {
      control + controllen
    }

    predicate Valid() {
      End() < LIMIT
    }

    /** A whole header lies in the buffer at this address. */
    predicate Holds(header: nat) {
      control <= header && header + HEADER <= End()
    }
  }

  function FirstHeader(m: Message): Option<nat> {
    if m.controllen >= HEADER then Some(m.control) else None
  }

  /** A first header is given exactly if a whole header lies in the buffer. */
  lemma FirstHeaderExactly(m: Message)
    ensures FirstHeader(m) == if m.Holds(m.control) then Some(m.control) else None
  {
  }

  function NextHeader(m: Message, header: nat, cmsgLen: nat): Option<nat> {
    var next := (header + Align(cmsgLen)) % LIMIT;
    if (next + HEADER) % LIMIT <= m.End() then Some(next) else None
  }

  /** A step ends the walk or moves forward to a header inside the buffer. */
  predicate StepsForward(m: Message, header: nat, cmsgLen: nat) {
    var next := NextHeader(m, header, cmsgLen);
    next.Some? ==> next.value > header && m.Holds(next.value)
  }

  predicate NoWrap(header: nat, cmsgLen: nat) {
    && 0 < cmsgLen && cmsgLen + WORD <= LIMIT
    && header + Align(cmsgLen) + HEADER < LIMIT
  }

  /** A step is sound exactly when it ends the walk or its length is positive and nothing wraps. */
  lemma StepIsSoundExactly(m: Message, header: nat, cmsgLen: nat)
    requires m.Valid() && m.Holds(header) && cmsgLen < LIMIT
    ensures StepsForward(m, header, cmsgLen) <==>
              NextHeader(m, header, cmsgLen).None? || NoWrap(header, cmsgLen)
  {
    hide Align;
    AlignIsLeastMultipleExactly(cmsgLen);
    var a := Align(cmsgLen);
    assert cmsgLen + WORD > LIMIT ==> a == 0;
    AlignBound(cmsgLen);
    assert 0 <= a < LIMIT;
    var sum := header + a;
    WrapOnce(sum);
    WrapOnce(sum % LIMIT + HEADER);
  }

  lemma AlignBound(length: nat)
    requires length < LIMIT
    ensures Align(length) < LIMIT
    ensures length == 0 ==> Align(length) == 0
  {
  }

  lemma WrapOnce(v: nat)
    requires v < 2 * LIMIT
    ensures v % LIMIT == if v < LIMIT then v else v - LIMIT
  {
  }

  /** A zero length is never left again. */
  lemma ZeroLengthIsStuck(m: Message, header: nat)
    requires m.Valid() && m.Holds(header)
    ensures NextHeader(m, header, 0) == Some(header)
  {
  }

  // ---- Walks ----

  /** The walk from `start` gets as far as the last header of the trace. `lens` is what
      `cmsg_len` reads at each address. */
  ghost predicate WalksTo(m: Message, lens: nat -> nat, start: nat, trace: seq<nat>) {
    && trace != [] && trace[0] == start
    && (forall i :: 0 <= i < |trace| - 1 ==> NextHeader(m, trace[i], lens(trace[i])) == Some(trace[i + 1]))
  }

  /** The headers that a walk from `start` visits, up to the step that ends it. */
  ghost predicate CompleteWalk(m: Message, lens: nat -> nat, start: nat, trace: seq<nat>) {
    && WalksTo(m, lens, start, trace)
    && NextHeader(m, trace[|trace| - 1], lens(trace[|trace| - 1])) == None
  }

  /** Where the walk gets to and goes on from, the length is positive and nothing wraps. What any other
      address reads does not matter. */
  ghost predicate GoesOnSoundly(m: Message, lens: nat -> nat, start: nat) {
    forall trace :: WalksTo(m, lens, start, trace) ==>
      var h := trace[|trace| - 1];
      lens(h) < LIMIT && (NextHeader(m, h, lens(h)).Some? ==> NoWrap(h, lens(h)))
  }

  /** Such a walk comes to an end inside the buffer. */
  lemma {:induction false} WalkEnds(m: Message, lens: nat -> nat, start: nat) returns (trace: seq<nat>)
    requires m.Valid() && m.Holds(start) && GoesOnSoundly(m, lens, start)
    ensures CompleteWalk(m, lens, start, trace)
    ensures forall h :: h in trace ==> m.Holds(h)
    ensures forall i, j :: 0 <= i < j < |trace| ==> trace[i] < trace[j]
    decreases m.End() - start
  {
    hide NextHeader, NoWrap;
    assert WalksTo(m, lens, start, [start]);
    StepIsSoundExactly(m, start, lens(start));
    var next := NextHeader(m, start, lens(start));
    if next.None? {
      trace := [start];
    } else {
      forall t | WalksTo(m, lens, next.value, t)
        ensures WalksTo(m, lens, start, [start] + t)
      {
      }
      assert GoesOnSoundly(m, lens, next.value) by {
        forall t | WalksTo(m, lens, next.value, t)
          ensures var h := t[|t| - 1];
                  lens(h) < LIMIT && (NextHeader(m, h, lens(h)).Some? ==> NoWrap(h, lens(h)))
        {
          assert WalksTo(m, lens, start, [start] + t);
        }
      }
      var rest := WalkEnds(m, lens, next.value);
      trace := [start] + rest;
      forall j | 0 <= j < |rest|
        ensures start < rest[j]
      {
        assert rest[0] == next.value && (j > 0 ==> rest[0] < rest[j]);
      }
    }
  }

  lemma {:induction false} WalkIsUnique(m: Message, lens: nat -> nat, start: nat, s: seq<nat>, t: seq<nat>)
    requires CompleteWalk(m, lens, start, s) && CompleteWalk(m, lens, start, t)
    ensures s == t
    decreases |s|
  {
    hide NextHeader;
    var next := NextHeader(m, start, lens(start));
    assert |s| > 1 ==> NextHeader(m, s[0], lens(s[0])) == Some(s[0 + 1]);
    assert |t| > 1 ==> NextHeader(m, t[0], lens(t[0])) == Some(t[0 + 1]);
    if |s| > 1 {
      assert CompleteWalk(m, lens, s[1], s[1..]);
      assert CompleteWalk(m, lens, t[1], t[1..]);
      WalkIsUnique(m, lens, s[1], s[1..], t[1..]);
      assert s == [s[0]] + s[1..] && t == [t[0]] + t[1..];
    }
  }

  // ---- Packed payloads ----

  /** Where each payload's header stands when they are packed one after the other. */
  function Offsets(base: nat, payloads: seq<nat>): (o: seq<nat>)
    ensures |o| == |payloads|
    decreases |payloads|
  {
    if payloads == [] then [] else [base] + Offsets(base + CmsgSpace(payloads[0]), payloads[1..])
  }

  function TotalSpace(payloads: seq<nat>): nat {
    if payloads == [] then 0 else CmsgSpace(payloads[0]) + TotalSpace(payloads[1..])
  }

  /** `cmsg_len` was set with CMSG_LEN at every packed header. */
  ghost predicate Packed(lens: nat -> nat, base: nat, payloads: seq<nat>) {
    forall i :: 0 <= i < |payloads| ==> lens(Offsets(base, payloads)[i]) == CmsgLen(payloads[i])
  }

  predicate Fits(payload: nat) {
    HEADER + payload + WORD <= LIMIT
  }

  /** A payload lies between its own header and the next, and its length steps exactly there. */
  lemma PayloadIsEnclosed(base: nat, payload: nat)
    requires Fits(payload)
    ensures CmsgLen(payload) == HEADER + payload
    ensures CmsgSpace(payload) == Align(CmsgLen(payload)) >= CmsgLen(payload)
    ensures CmsgSpace(payload) >= HEADER
  {
    AlignRoundsUp(payload);
    AlignRoundsUp(HEADER);
    AlignRoundsUp(HEADER + payload);
    hide Align;
    assert (HEADER + payload) % WORD == payload % WORD;
    WrapOnce(HEADER + payload);
    WrapOnce(HEADER + Align(payload));
  }

  lemma AlignRoundsUp(length: nat)
    requires length + WORD <= LIMIT
    ensures Align(length) == length + (WORD - length % WORD) % WORD
  {
  }

  lemma {:induction false} PackedStep(m: Message, lens: nat -> nat, base: nat, payloads: seq<nat>)
    requires payloads != [] && Fits(payloads[0])
    requires m.control <= base && m.End() == base + TotalSpace(payloads) && m.End() + HEADER < LIMIT
    requires forall p :: p in payloads ==> Fits(p)
    ensures m.Holds(base)
    ensures NextHeader(m, base, CmsgLen(payloads[0]))
            == if |payloads| == 1 then None else Some(base + CmsgSpace(payloads[0]))
  {
    PayloadIsEnclosed(base, payloads[0]);
    hide Align, CmsgLen, CmsgSpace;
    if |payloads| > 1 {
      assert payloads[1..][0] in payloads;
      PayloadIsEnclosed(base, payloads[1]);
      assert TotalSpace(payloads[1..]) == CmsgSpace(payloads[1]) + TotalSpace(payloads[2..]) by {
        assert payloads[1..][1..] == payloads[2..];
      }
    }
    WrapOnce(base + CmsgSpace(payloads[0]));
    WrapOnce(base + CmsgSpace(payloads[0]) + HEADER);
  }

  /** Packing any list of payloads and walking the message visits exactly their headers, in order
      and inside the buffer. */
  lemma {:induction false} WalkVisitsPacked(m: Message, lens: nat -> nat, base: nat, payloads: seq<nat>)
    requires payloads != [] && forall p :: p in payloads ==> Fits(p)
    requires m.control <= base && m.End() == base + TotalSpace(payloads) && m.End() + HEADER < LIMIT
    requires Packed(lens, base, payloads)
    ensures CompleteWalk(m, lens, base, Offsets(base, payloads))
    ensures forall h :: h in Offsets(base, payloads) ==> m.Holds(h)
    decreases |payloads|
  {
    hide NextHeader, CmsgLen, CmsgSpace;
    PackedStep(m, lens, base, payloads);
    var all := Offsets(base, payloads);
    if |payloads| > 1 {
      var next := base + CmsgSpace(payloads[0]);
      var rest := Offsets(next, payloads[1..]);
      forall i | 0 <= i < |payloads[1..]|
        ensures lens(rest[i]) == CmsgLen(payloads[1..][i])
      {
        assert all[i + 1] == rest[i];
      }
      WalkVisitsPacked(m, lens, next, payloads[1..]);
      assert all == [base] + rest;
      forall i | 0 <= i < |all| - 1
        ensures NextHeader(m, all[i], lens(all[i])) == Some(all[i + 1])
      {
        if i == 0 {
          assert lens(all[0]) == CmsgLen(payloads[0]);
          assert all[1] == rest[0] == next;
        } else {
          assert all[i] == rest[i - 1] && all[i + 1] == rest[i];
        }
      }
    } else {
      assert all == [base];
      assert lens(all[0]) == CmsgLen(payloads[0]);
    }
  }

  lemma {:induction false} PackedSpaceIsPositive(payloads: seq<nat>)
    requires payloads != [] && forall p :: p in payloads ==> Fits(p)
    ensures TotalSpace(payloads) >= HEADER
  {
    PayloadIsEnclosed(0, payloads[0]);
  }

  /** The whole sequence of macros: the buffer that CMSG_SPACE sizes, from CMSG_FIRSTHDR on. */
  lemma PackThenWalk(control: nat, payloads: seq<nat>, lens: nat -> nat)
    requires forall p :: p in payloads ==> Fits(p)
    requires control + TotalSpace(payloads) + HEADER < LIMIT
    requires Packed(lens, control, payloads)
    ensures var m := Message(control, TotalSpace(payloads));
            if payloads == [] then FirstHeader(m) == None
            else
              && FirstHeader(m) == Some(control)
              && CompleteWalk(m, lens, control, Offsets(control, payloads))
              && forall h :: h in Offsets(control, payloads) ==> m.Holds(h)
  {
    if payloads != [] {
      PackedSpaceIsPositive(payloads);
      WalkVisitsPacked(Message(control, TotalSpace(payloads)), lens, control, payloads);
    }
  }

  /** Room for one more header below the top of the address space is needed: without it the last
      step wraps and reports a header that is not there. */
  lemma LastStepNeedsRoom(m: Message, header: nat, payload: nat)
    requires m.Valid() && Fits(payload)
    requires m.control <= header && m.End() == header + CmsgSpace(payload)
    ensures NextHeader(m, header, CmsgLen(payload)) == None <==> m.End() + HEADER < LIMIT
  {
    PayloadIsEnclosed(header, payload);
    hide Align, CmsgLen, CmsgSpace;
    WrapOnce(m.End());
    WrapOnce(m.End() + HEADER);
  }
}

/** The double-buffered source registers SrcA and SrcB: the unpacker fills a bank and hands
    it over, the matrix unit reads it and gives it back. */
module Banks {

  type Bank = k: nat | k < 2

  function Other(k: Bank): Bank { 1 - k }

  /** What a bank holds, and whether ZEROSRC was the last to write it. */
  datatype Slot = Slot(data: int, zeroed: bool)

  /** One source register: which banks the matrix unit owns, and where each side is. */
  datatype Src = Src(valid: seq<bool>, slot: seq<Slot>, unp: Bank, math: Bank)

  datatype Pair = Pair(a: Src, b: Src)

  predicate Formed(s: Src) { |s.valid| == 2 && |s.slot| == 2 }

  predicate WellFormed(p: Pair) { Formed(p.a) && Formed(p.b) }

  datatype Which = A | B

  /** UNPACR with its sub-modes, UNPACR_NOP in ZEROSRC mode, the element-wise operations,
      MVMUL, SETRWC and a resetting CLEARDVALID. `fill` is what ZEROSRC writes. */
  datatype Action =
    | Unpacr(which: Which, data: int, writes: bool, setValid: bool)
    | UnpacrNoData(which: Which)
    | ZeroSrc(which: Which, fill: int, likeUnpacr: bool, both: bool, setValid: bool)
    | Elementwise(flipA: bool, flipB: bool)
    | Mvmul(flipA: bool, flipB: bool)
    | SetRwc(flipA: bool, flipB: bool)
    | Reset

  // ------------------------------------------------ one source register

  function Write(s: Src, slot: Slot): Src
    requires Formed(s)
  {
    s.(slot := s.slot[s.unp := slot])
  }

  function HandOver(s: Src): Src
    requires Formed(s)
  {
    s.(valid := s.valid[s.unp := true], unp := Other(s.unp))
  }

  function Release(s: Src): Src
    requires Formed(s)
  {
    s.(valid := s.valid[s.math := false], math := Other(s.math))
  }

  function ReleaseIf(s: Src, flip: bool): Src
    requires Formed(s)
  {
    if flip then Release(s) else s
  }

  /** MVMUL passes over a zeroed SrcB bank when the other one holds data. */
  predicate Skips(s: Src)
    requires Formed(s)
  {
    s.slot[s.math].zeroed && s.valid[Other(s.math)] && !s.slot[Other(s.math)].zeroed
  }

  function SkipZeroed(s: Src): (z: Src)
    requires Formed(s)
    ensures Formed(z)
  {
    if Skips(s) then Release(s.(slot := s.slot[s.math := s.slot[s.math].(zeroed := false)])) else s
  }

  function Cleared(s: Src): Src { s.(valid := [false, false], unp := 0, math := 0) }

  // ------------------------------------------------ one instruction

  /** What an instruction did: banks handed over and given back on each side, in order,
      and the pair of banks the matrix unit read, if it read any. */
  datatype Effect = Effect(toA: seq<Slot>, fromA: seq<Slot>, toB: seq<Slot>, fromB: seq<Slot>, read: seq<(Slot, Slot)>)

  datatype Outcome = Blocked | Done(p: Pair, e: Effect)

  function Unpacked(s: Src, w: Slot, setValid: bool): Src
    requires Formed(s)
  {
    if setValid then HandOver(Write(s, w)) else Write(s, w)
  }

  function Handed(w: Slot, setValid: bool): seq<Slot> { if setValid then [w] else [] }

  function Unpack(p: Pair, which: Which, w: Slot, setValid: bool): Outcome
    requires WellFormed(p)
  {
    match which
    case A => Done(p.(a := Unpacked(p.a, w, setValid)), Effect(Handed(w, setValid), [], [], [], []))
    case B => Done(p.(b := Unpacked(p.b, w, setValid)), Effect([], [], Handed(w, setValid), [], []))
  }

  function Side(p: Pair, which: Which): Src { if which.A? then p.a else p.b }

  /** Both sides as the matrix unit leaves them. */
  function Consume(p: Pair, flipA: bool, flipB: bool, skipped: seq<Slot>, read: seq<(Slot, Slot)>): Outcome
    requires WellFormed(p)
  {
    var a, b := p.a.slot[p.a.math], p.b.slot[p.b.math];
    Done(Pair(ReleaseIf(p.a, flipA), ReleaseIf(p.b, flipB)),
         Effect([], if flipA then [a] else [], [], skipped + if flipB then [b] else [], read))
  }

  function Zeroed(s: Src, fill: int, mark: bool): (z: Src)
    requires Formed(s)
    ensures Formed(z)
  {
    s.(slot := [Slot(fill, mark), Slot(fill, mark)])
  }

  function Step(p: Pair, act: Action): (o: Outcome)
    requires WellFormed(p)
    ensures o.Done? ==> WellFormed(o.p)
  {
    match act
    case Unpacr(which, data, writes, setValid) =>
      var s := Side(p, which);
      if s.valid[s.unp] then Blocked
      else Unpack(p, which, if writes then Slot(data, false) else s.slot[s.unp], setValid)
    case UnpacrNoData(which) =>
      var s := Side(p, which);
      if s.valid[s.unp] then Blocked else Done(p, Effect([], [], [], [], []))
    case ZeroSrc(which, fill, likeUnpacr, both, setValid) =>
      var s := Side(p, which);
      if s.valid[if likeUnpacr then s.unp else s.math] then Blocked
      else
        var w := Slot(fill, which.B?);
        var q :=
          if !both then p
          else if which.A? then p.(a := Zeroed(p.a, fill, false))
          else p.(b := Zeroed(p.b, fill, true));
        Unpack(q, which, w, setValid)
    case Elementwise(flipA, flipB) =>
      if !p.a.valid[p.a.math] || !p.b.valid[p.b.math] then Blocked
      else Consume(p, flipA, flipB, [], [(p.a.slot[p.a.math], p.b.slot[p.b.math])])
    case Mvmul(flipA, flipB) =>
      if !p.a.valid[p.a.math] || !p.b.valid[p.b.math] then Blocked
      else
        var q := p.(b := SkipZeroed(p.b));
        Consume(q, flipA, flipB, if Skips(p.b) then [p.b.slot[p.b.math]] else [],
                [(q.a.slot[q.a.math], q.b.slot[q.b.math])])
    case SetRwc(flipA, flipB) =>
      if (flipA && !p.a.valid[p.a.math]) || (flipB && !p.b.valid[p.b.math]) then Blocked
      else Consume(p, flipA, flipB, [], [])
    case Reset => Done(Pair(Cleared(p.a), Cleared(p.b)), Effect([], [], [], [], []))
  }

  // ------------------------------------------------ a ring of two slots

  /** Every bank ever handed over, in order, and how many have come back. */
  datatype Ring = Ring(handed: seq<Slot>, released: nat)

  predicate RingFormed(r: Ring) { r.released <= |r.handed| <= r.released + 2 }

  /** The register is the ring: both bank numbers are the counts modulo two, exactly the
      outstanding banks are owned by the matrix unit, and they hold what was handed over. */
  ghost predicate InRing(s: Src, r: Ring) {
    && Formed(s) && RingFormed(r)
    && s.unp == |r.handed| % 2 && s.math == r.released % 2
    && (forall i :: r.released <= i < |r.handed| ==> s.valid[i % 2] && s.slot[i % 2] == r.handed[i])
    && (forall i :: |r.handed| <= i < r.released + 2 ==> !s.valid[i % 2])
  }

  lemma Ownership(s: Src, r: Ring)
    requires InRing(s, r)
    ensures Formed(s) && RingFormed(r)
    ensures s.valid[s.unp] <==> |r.handed| == r.released + 2
    ensures s.valid[s.math] <==> |r.handed| > r.released
    ensures s.valid[s.math] ==> s.slot[s.math] == r.handed[r.released]
    ensures s.valid[Other(s.math)] <==> |r.handed| == r.released + 2
    ensures s.valid[Other(s.math)] ==> s.slot[Other(s.math)] == r.handed[r.released + 1]
  {
    assert Other(s.math) == (r.released + 1) % 2;
  }

  lemma WriteInRing(s: Src, r: Ring, w: Slot)
    requires InRing(s, r) && |r.handed| < r.released + 2
    ensures InRing(Write(s, w), r)
  {}

  lemma HandOverInRing(s: Src, r: Ring)
    requires InRing(s, r) && |r.handed| < r.released + 2
    ensures InRing(HandOver(s), Ring(r.handed + [s.slot[s.unp]], r.released))
  {}

  lemma ReleaseInRing(s: Src, r: Ring)
    requires InRing(s, r) && |r.handed| > r.released
    ensures InRing(Release(s), Ring(r.handed, r.released + 1))
  {}

  function After(r: Ring, to: seq<Slot>, from: seq<Slot>): Ring {
    Ring(r.handed + to, r.released + |from|)
  }

  /** What came back is what was handed over longest ago. */
  predicate InOrder(r: Ring, to: seq<Slot>, from: seq<Slot>) {
    r.released + |from| <= |r.handed + to| && from == (r.handed + to)[r.released..r.released + |from|]
  }

  function RingOf(which: Which, ra: Ring, rb: Ring): Ring { if which.A? then ra else rb }

  predicate Full(r: Ring) { |r.handed| == r.released + 2 }

  predicate Empty(r: Ring) { |r.handed| == r.released }

  /** When an instruction has to wait, in terms of the rings alone. */
  predicate Waits(act: Action, ra: Ring, rb: Ring) {
    match act
    case Unpacr(which, _, _, _) => Full(RingOf(which, ra, rb))
    case UnpacrNoData(which) => Full(RingOf(which, ra, rb))
    case ZeroSrc(which, _, likeUnpacr, _, _) =>
      if likeUnpacr then Full(RingOf(which, ra, rb)) else !Empty(RingOf(which, ra, rb))
    case Elementwise(_, _) => Empty(ra) || Empty(rb)
    case Mvmul(_, _) => Empty(ra) || Empty(rb)
    case SetRwc(flipA, flipB) => (flipA && Empty(ra)) || (flipB && Empty(rb))
    case Reset => false
  }

  /** ZEROSRC on both banks destroys a bank the matrix unit still owns. */
  predicate Clobbers(act: Action, ra: Ring, rb: Ring)
    requires RingFormed(ra) && RingFormed(rb)
  {
    act.ZeroSrc? && act.both &&
      var r := RingOf(act.which, ra, rb);
      |r.handed| == r.released + 1 && r.handed[r.released] != Slot(act.fill, act.which.B?)
  }

  /** The ring entry of SrcB that the matrix unit reads: MVMUL passes over a zeroed one when
      a second one with data is there. */
  function ReadsAt(act: Action, rb: Ring): nat
    requires RingFormed(rb)
  {
    if act.Mvmul? && Full(rb) && rb.handed[rb.released].zeroed && !rb.handed[rb.released + 1].zeroed
    then rb.released + 1 else rb.released
  }

  predicate Reads(act: Action) { act.Elementwise? || act.Mvmul? }

  /** How many banks an instruction that does not wait gives back on a side: what its flip bits
      say, and a zeroed SrcB bank that MVMUL passes over. */
  function GivesBack(act: Action, which: Which, rb: Ring): nat
    requires RingFormed(rb)
  {
    if act.Elementwise? || act.SetRwc? || act.Mvmul? then
      var flip := if which.A? then act.flipA else act.flipB;
      (if flip then 1 else 0) + (if which.B? then ReadsAt(act, rb) - rb.released else 0)
    else 0
  }

  /** What it hands over on a side: nothing, unless it sets the bank valid there; then one
      bank, with the unpacked tile or with what ZEROSRC writes. */
  predicate HandsOver(act: Action, which: Which, to: seq<Slot>) {
    match act
    case Unpacr(w, data, writes, setValid) =>
      if w == which && setValid then |to| == 1 && (writes ==> to[0] == Slot(data, false)) else to == []
    case ZeroSrc(w, fill, _, _, setValid) =>
      to == if w == which && setValid then [Slot(fill, which.B?)] else []
    case _ => to == []
  }

  predicate Moves(act: Action, e: Effect, rb: Ring)
    requires RingFormed(rb)
  {
    && |e.fromA| == GivesBack(act, A, rb) && |e.fromB| == GivesBack(act, B, rb)
    && HandsOver(act, A, e.toA) && HandsOver(act, B, e.toB)
  }

  ghost predicate Refines(p: Pair, act: Action, ra: Ring, rb: Ring)
    requires InRing(p.a, ra) && InRing(p.b, rb)
  {
    var o := Step(p, act);
    && (o.Blocked? <==> Waits(act, ra, rb))
    && (o.Done? ==>
          && Moves(act, o.e, rb)
          && InRing(o.p.a, After(ra, o.e.toA, o.e.fromA)) && InOrder(ra, o.e.toA, o.e.fromA)
          && InRing(o.p.b, After(rb, o.e.toB, o.e.fromB)) && InOrder(rb, o.e.toB, o.e.fromB)
          && o.e.read == if Reads(act) then [(ra.handed[ra.released], rb.handed[ReadsAt(act, rb)])] else [])
  }

  lemma Untouched(s: Src, r: Ring)
    requires InRing(s, r)
    ensures InRing(s, After(r, [], [])) && InOrder(r, [], [])
  {}

  lemma UnpackedInRing(s: Src, r: Ring, w: Slot, setValid: bool)
    requires InRing(s, r) && !Full(r)
    ensures InRing(Unpacked(s, w, setValid), After(r, Handed(w, setValid), []))
    ensures InOrder(r, Handed(w, setValid), [])
  {
    WriteInRing(s, r, w);
    HandOverInRing(Write(s, w), r);
    assert r.handed + [] == r.handed;
  }

  lemma ZeroedInRing(s: Src, r: Ring, fill: int, mark: bool)
    requires InRing(s, r) && !Full(r)
    ensures InRing(Zeroed(s, fill, mark), r) <==> Empty(r) || r.handed[r.released] == Slot(fill, mark)
  {}

  lemma ReleaseIfInRing(s: Src, r: Ring, flip: bool)
    requires InRing(s, r) && (flip ==> !Empty(r))
    ensures var from := if flip then [s.slot[s.math]] else [];
            InRing(ReleaseIf(s, flip), After(r, [], from)) && InOrder(r, [], from)
  {
    Ownership(s, r);
    assert r.handed + [] == r.handed;
    if flip { ReleaseInRing(s, r); }
  }

  lemma SkipInRing(s: Src, r: Ring)
    requires InRing(s, r) && !Empty(r)
    ensures Skips(s) <==> Full(r) && r.handed[r.released].zeroed && !r.handed[r.released + 1].zeroed
    ensures var from := if Skips(s) then [s.slot[s.math]] else [];
            InRing(SkipZeroed(s), After(r, [], from)) && InOrder(r, [], from)
  {
    Ownership(s, r);
    assert r.handed + [] == r.handed;
    if Skips(s) {
      ReleaseInRing(s, r);
      var q := Release(s);
      assert !q.valid[s.math];
    }
  }

  lemma Conclude(p: Pair, act: Action, ra: Ring, rb: Ring, p': Pair, e: Effect)
    requires InRing(p.a, ra) && InRing(p.b, rb) && !Waits(act, ra, rb) && Step(p, act) == Done(p', e)
    requires InRing(p'.a, After(ra, e.toA, e.fromA)) && InOrder(ra, e.toA, e.fromA)
    requires InRing(p'.b, After(rb, e.toB, e.fromB)) && InOrder(rb, e.toB, e.fromB)
    requires Reads(act) ==> !Empty(ra) && !Empty(rb)
    requires Moves(act, e, rb)
    requires e.read == if Reads(act) then [(ra.handed[ra.released], rb.handed[ReadsAt(act, rb)])] else []
    ensures Refines(p, act, ra, rb)
  {}

  lemma ConcludeBlocked(p: Pair, act: Action, ra: Ring, rb: Ring)
    requires InRing(p.a, ra) && InRing(p.b, rb) && Waits(act, ra, rb) && Step(p, act).Blocked?
    ensures Refines(p, act, ra, rb)
  {}

  lemma ConcludeUnpack(p: Pair, act: Action, ra: Ring, rb: Ring, s: Src, to: seq<Slot>)
    requires InRing(p.a, ra) && InRing(p.b, rb) && !Waits(act, ra, rb) && (act.Unpacr? || act.ZeroSrc?)
    requires Step(p, act) == if act.which.A? then Done(p.(a := s), Effect(to, [], [], [], []))
                                             else Done(p.(b := s), Effect([], [], to, [], []))
    requires var r := RingOf(act.which, ra, rb); InRing(s, After(r, to, [])) && InOrder(r, to, [])
    requires HandsOver(act, act.which, to)
    ensures Refines(p, act, ra, rb)
  {
    Untouched(p.a, ra);
    Untouched(p.b, rb);
    hide Step, InRing, InOrder, Waits;
    if act.which.A? {
      Conclude(p, act, ra, rb, p.(a := s), Effect(to, [], [], [], []));
    } else {
      Conclude(p, act, ra, rb, p.(b := s), Effect([], [], to, [], []));
    }
  }

  /** The steps of the unpacker's thread. */
  lemma UnpacrRefines(p: Pair, act: Action, ra: Ring, rb: Ring)
    requires InRing(p.a, ra) && InRing(p.b, rb)
    requires act.Unpacr? || act.UnpacrNoData?
    ensures Refines(p, act, ra, rb)
  {
    hide InRing, InOrder, Unpacked;
    Ownership(p.a, ra);
    Ownership(p.b, rb);
    Untouched(p.a, ra);
    Untouched(p.b, rb);
    if !Waits(act, ra, rb) && act.Unpacr? {
      var s, r := Side(p, act.which), RingOf(act.which, ra, rb);
      var w := if act.writes then Slot(act.data, false) else s.slot[s.unp];
      UnpackedInRing(s, r, w, act.setValid);
      ConcludeUnpack(p, act, ra, rb, Unpacked(s, w, act.setValid), Handed(w, act.setValid));
    }
  }

  lemma ZeroSrcRefines(p: Pair, act: Action, ra: Ring, rb: Ring)
    requires InRing(p.a, ra) && InRing(p.b, rb)
    requires act.ZeroSrc? && (Waits(act, ra, rb) || !Clobbers(act, ra, rb))
    ensures Refines(p, act, ra, rb)
  {
    hide InRing, InOrder, Unpacked, Zeroed;
    Ownership(p.a, ra);
    Ownership(p.b, rb);
    if !Waits(act, ra, rb) {
      var s, r, w := Side(p, act.which), RingOf(act.which, ra, rb), Slot(act.fill, act.which.B?);
      var z := if act.both then Zeroed(s, act.fill, act.which.B?) else s;
      ZeroedInRing(s, r, act.fill, act.which.B?);
      UnpackedInRing(z, r, w, act.setValid);
      ConcludeUnpack(p, act, ra, rb, Unpacked(z, w, act.setValid), Handed(w, act.setValid));
    }
  }

  /** And exactly these: zeroing both banks while one with other contents is outstanding
      breaks the ring. */
  lemma ClobberBreaks(p: Pair, act: Action, ra: Ring, rb: Ring)
    requires InRing(p.a, ra) && InRing(p.b, rb)
    requires act.ZeroSrc? && Clobbers(act, ra, rb) && !Waits(act, ra, rb)
    ensures !Refines(p, act, ra, rb)
    ensures var o := Step(p, act);
            o.Done? && !(InRing(o.p.a, After(ra, o.e.toA, o.e.fromA)) && InRing(o.p.b, After(rb, o.e.toB, o.e.fromB)))
  {
    var o, r := Step(p, act), RingOf(act.which, ra, rb);
    Ownership(p.a, ra);
    Ownership(p.b, rb);
    var s', to := Side(o.p, act.which), if act.which.A? then o.e.toA else o.e.toB;
    assert s'.slot[r.released % 2] == Slot(act.fill, act.which.B?);
    assert After(r, to, []).handed[r.released] == r.handed[r.released];
  }

  /** A tile written without handing it over is what the next UNPACR that only hands over gives
      to the matrix unit. */
  lemma StagedThenHanded(p: Pair, which: Which, data: int)
    requires WellFormed(p) && !Side(p, which).valid[Side(p, which).unp]
    ensures var o := Step(p, Unpacr(which, data, true, false));
            && o.Done? && o.e == Effect([], [], [], [], [])
            && var o' := Step(o.p, Unpacr(which, 0, false, true));
               o'.Done? && (if which.A? then o'.e.toA else o'.e.toB) == [Slot(data, false)]
  {}

  /** For instance: the first tile of SrcA is outstanding, and ZEROSRC of both banks puts zero
      in its place. */
  lemma ClobberExample()
    ensures var none := Src([false, false], [Slot(0, false), Slot(0, false)], 0, 0);
            var p := Step(Pair(none, none), Unpacr(A, 7, true, true)).p;
            var q := Step(p, ZeroSrc(A, 0, true, true, false)).p;
            && InRing(p.a, Ring([Slot(7, false)], 0)) && p.a.slot[p.a.math] == Slot(7, false)
            && q.a.valid[q.a.math] && q.a.slot[q.a.math] == Slot(0, false)
            && !InRing(q.a, Ring([Slot(7, false)], 0))
  {
    var none := Src([false, false], [Slot(0, false), Slot(0, false)], 0, 0);
    assert InRing(none, Ring([], 0));
  }

  /** The steps of the math thread. */
  lemma MathRefines(p: Pair, act: Action, ra: Ring, rb: Ring)
    requires InRing(p.a, ra) && InRing(p.b, rb)
    requires act.Elementwise? || act.SetRwc?
    ensures Refines(p, act, ra, rb)
  {
    hide InRing, InOrder, ReleaseIf, After, Refines;
    Ownership(p.a, ra);
    Ownership(p.b, rb);
    if Waits(act, ra, rb) {
      ConcludeBlocked(p, act, ra, rb);
    } else {
      ReleaseIfInRing(p.a, ra, act.flipA);
      ReleaseIfInRing(p.b, rb, act.flipB);
      var fromA := if act.flipA then [p.a.slot[p.a.math]] else [];
      var fromB := if act.flipB then [p.b.slot[p.b.math]] else [];
      assert [] + fromB == fromB;
      var read := if Reads(act) then [(ra.handed[ra.released], rb.handed[rb.released])] else [];
      var p' := Pair(ReleaseIf(p.a, act.flipA), ReleaseIf(p.b, act.flipB));
      Conclude(p, act, ra, rb, p', Effect([], fromA, [], fromB, read));
    }
  }

  lemma SkipThenRelease(s: Src, r: Ring, flip: bool)
    requires InRing(s, r) && !Empty(r)
    ensures Formed(s)
    ensures Skips(s) <==> Full(r) && r.handed[r.released].zeroed && !r.handed[r.released + 1].zeroed
    ensures var b := SkipZeroed(s);
            var from := (if Skips(s) then [s.slot[s.math]] else []) + if flip then [b.slot[b.math]] else [];
            && b.slot[b.math] == r.handed[if Skips(s) then r.released + 1 else r.released]
            && InRing(ReleaseIf(b, flip), After(r, [], from)) && InOrder(r, [], from)
  {
    hide InRing, InOrder, SkipZeroed, ReleaseIf;
    Ownership(s, r);
    SkipInRing(s, r);
    var b, from := SkipZeroed(s), if Skips(s) then [s.slot[s.math]] else [];
    var r' := After(r, [], from);
    assert r'.handed == r.handed;
    Ownership(b, r');
    ReleaseIfInRing(b, r', flip);
    InOrderJoin(r, [], from, [], if flip then [b.slot[b.math]] else []);
  }

  /** What MVMUL gives back on the side of SrcB. */
  function MvmulFrom(s: Src, flip: bool): seq<Slot>
    requires Formed(s)
  {
    var b := SkipZeroed(s);
    (if Skips(s) then [s.slot[s.math]] else []) + if flip then [b.slot[b.math]] else []
  }

  lemma MvmulStep(p: Pair, act: Action)
    requires WellFormed(p) && act.Mvmul? && p.a.valid[p.a.math] && p.b.valid[p.b.math]
    ensures var b := SkipZeroed(p.b);
            var fromA := if act.flipA then [p.a.slot[p.a.math]] else [];
            var read := [(p.a.slot[p.a.math], b.slot[b.math])];
            Step(p, act) == Done(Pair(ReleaseIf(p.a, act.flipA), ReleaseIf(b, act.flipB)),
                                 Effect([], fromA, [], MvmulFrom(p.b, act.flipB), read))
  {
    hide SkipZeroed, ReleaseIf, Skips;
  }

  lemma MvmulOnB(s: Src, act: Action, r: Ring)
    requires InRing(s, r) && !Empty(r) && act.Mvmul?
    ensures Formed(s) && RingFormed(r)
    ensures var b, from := SkipZeroed(s), MvmulFrom(s, act.flipB);
            && b.slot[b.math] == r.handed[ReadsAt(act, r)] && |from| == GivesBack(act, B, r)
            && InRing(ReleaseIf(b, act.flipB), After(r, [], from)) && InOrder(r, [], from)
  {
    hide InRing, InOrder, ReleaseIf, SkipZeroed, Skips, After;
    Ownership(s, r);
    SkipThenRelease(s, r, act.flipB);
  }

  lemma MvmulRefines(p: Pair, act: Action, ra: Ring, rb: Ring)
    requires InRing(p.a, ra) && InRing(p.b, rb) && act.Mvmul?
    ensures Refines(p, act, ra, rb)
  {
    hide InRing, InOrder, ReleaseIf, SkipZeroed, MvmulFrom, ReadsAt, After, Refines;
    Ownership(p.a, ra);
    Ownership(p.b, rb);
    if Waits(act, ra, rb) {
      ConcludeBlocked(p, act, ra, rb);
    } else {
      MvmulStep(p, act);
      hide Step;
      ReleaseIfInRing(p.a, ra, act.flipA);
      MvmulOnB(p.b, act, rb);
      var b := SkipZeroed(p.b);
      var fromA := if act.flipA then [p.a.slot[p.a.math]] else [];
      var p' := Pair(ReleaseIf(p.a, act.flipA), ReleaseIf(b, act.flipB));
      var e := Effect([], fromA, [], MvmulFrom(p.b, act.flipB), [(p.a.slot[p.a.math], b.slot[b.math])]);
      Conclude(p, act, ra, rb, p', e);
    }
  }

  /** One step of either thread does what the rings say, exactly unless it clobbers. */
  lemma StepRefines(p: Pair, act: Action, ra: Ring, rb: Ring)
    requires InRing(p.a, ra) && InRing(p.b, rb) && !act.Reset?
    ensures Refines(p, act, ra, rb) <==> Waits(act, ra, rb) || !Clobbers(act, ra, rb)
  {
    Ownership(p.a, ra);
    Ownership(p.b, rb);
    hide InRing, Step, Refines, Waits;
    if act.ZeroSrc? {
      if !Waits(act, ra, rb) && Clobbers(act, ra, rb) {
        ClobberBreaks(p, act, ra, rb);
      } else {
        ZeroSrcRefines(p, act, ra, rb);
      }
    } else if act.Unpacr? || act.UnpacrNoData? {
      UnpacrRefines(p, act, ra, rb);
    } else if act.Mvmul? {
      MvmulRefines(p, act, ra, rb);
    } else {
      MathRefines(p, act, ra, rb);
    }
  }

  /** A resetting CLEARDVALID empties both rings. */
  lemma ResetInRing(p: Pair)
    requires WellFormed(p)
    ensures var o := Step(p, Reset); o.Done? && InRing(o.p.a, Ring([], 0)) && InRing(o.p.b, Ring([], 0))
  {}

  // ------------------------------------------------ every interleaving

  /** An attempt of either thread: it was blocked, or it had an effect. */
  datatype Event = Waited(act: Action) | Did(act: Action, e: Effect)

  /** The attempts of both threads in any order; a blocked one changes nothing. */
  function RunAll(acts: seq<Action>, p: Pair): (r: (Pair, seq<Event>))
    requires WellFormed(p)
    decreases |acts|
  {
    if acts == [] then (p, [])
    else
      match Step(p, acts[0])
      case Blocked =>
        var r := RunAll(acts[1..], p);
        (r.0, [Waited(acts[0])] + r.1)
      case Done(p', e) =>
        var r := RunAll(acts[1..], p');
        (r.0, [Did(acts[0], e)] + r.1)
  }

  /** The two rings after an event; a reset starts them over. */
  function NextRings(ev: Event, ra: Ring, rb: Ring): (Ring, Ring) {
    match ev
    case Waited(_) => (ra, rb)
    case Did(act, e) =>
      if act.Reset? then (Ring([], 0), Ring([], 0)) else (After(ra, e.toA, e.fromA), After(rb, e.toB, e.fromB))
  }

  /** The event is what the rings say: it waited exactly when it had to; it moved as many banks
      as its bits say; what it gave back was handed over longest ago; what it read are the
      oldest entries, or the one after a zeroed one. */
  predicate Fits(ev: Event, ra: Ring, rb: Ring) {
    && RingFormed(ra) && RingFormed(rb) && (ev.Waited? <==> Waits(ev.act, ra, rb))
    && (ev.Did? ==>
          && Moves(ev.act, ev.e, rb)
          && InOrder(ra, ev.e.toA, ev.e.fromA) && InOrder(rb, ev.e.toB, ev.e.fromB)
          && ev.e.read == if Reads(ev.act) then [(ra.handed[ra.released], rb.handed[ReadsAt(ev.act, rb)])] else [])
  }

  predicate Explained(log: seq<Event>, ra: Ring, rb: Ring) {
    log != [] ==>
      Fits(log[0], ra, rb) && Explained(log[1..], NextRings(log[0], ra, rb).0, NextRings(log[0], ra, rb).1)
  }

  function RingsAfter(log: seq<Event>, ra: Ring, rb: Ring): (Ring, Ring) {
    if log == [] then (ra, rb)
    else RingsAfter(log[1..], NextRings(log[0], ra, rb).0, NextRings(log[0], ra, rb).1)
  }

  lemma ResetFits(p: Pair, ra: Ring, rb: Ring)
    requires InRing(p.a, ra) && InRing(p.b, rb)
    ensures var o := Step(p, Reset); o.Done? && Fits(Did(Reset, o.e), ra, rb)
  {}

  /** The attempt overwrites a bank that is still outstanding. */
  predicate Breaks(ev: Event, ra: Ring, rb: Ring) {
    ev.Did? && RingFormed(ra) && RingFormed(rb) && Clobbers(ev.act, ra, rb)
  }

  predicate Unbroken(log: seq<Event>, ra: Ring, rb: Ring) {
    log != [] ==>
      !Breaks(log[0], ra, rb) && Unbroken(log[1..], NextRings(log[0], ra, rb).0, NextRings(log[0], ra, rb).1)
  }

  /** One attempt, a reset included, and the rings after it: exactly unless it overwrites. */
  lemma EventFits(p: Pair, act: Action, ra: Ring, rb: Ring)
    requires InRing(p.a, ra) && InRing(p.b, rb)
    ensures WellFormed(p)
    ensures var o := Step(p, act);
            var ev := if o.Blocked? then Waited(act) else Did(act, o.e);
            var p' := if o.Blocked? then p else o.p;
            && (!Breaks(ev, ra, rb) ==> Fits(ev, ra, rb))
            && (!Breaks(ev, ra, rb) <==> InRing(p'.a, NextRings(ev, ra, rb).0) && InRing(p'.b, NextRings(ev, ra, rb).1))
  {
    hide InRing, InOrder, Waits, Step, After, ReadsAt;
    Ownership(p.a, ra);
    Ownership(p.b, rb);
    if act.Reset? {
      ResetFits(p, ra, rb);
      ResetInRing(p);
    } else if Waits(act, ra, rb) || !Clobbers(act, ra, rb) {
      StepRefines(p, act, ra, rb);
    } else {
      ClobberBreaks(p, act, ra, rb);
    }
  }

  /** All along the run each attempt is what the rings say, bank numbers are counts modulo
      two, exactly the outstanding banks belong to the matrix unit, and they still hold what
      was handed over. */
  ghost predicate Follows(acts: seq<Action>, p: Pair, ra: Ring, rb: Ring)
    decreases |acts|
  {
    && InRing(p.a, ra) && InRing(p.b, rb)
    && (acts != [] ==>
          WellFormed(p) &&
          var o := Step(p, acts[0]);
          var ev := if o.Blocked? then Waited(acts[0]) else Did(acts[0], o.e);
          && Fits(ev, ra, rb)
          && Follows(acts[1..], if o.Blocked? then p else o.p, NextRings(ev, ra, rb).0, NextRings(ev, ra, rb).1))
  }

  lemma FirstEvent(acts: seq<Action>, p: Pair)
    requires acts != [] && WellFormed(p)
    ensures var o := Step(p, acts[0]);
            var ev := if o.Blocked? then Waited(acts[0]) else Did(acts[0], o.e);
            var rest := RunAll(acts[1..], if o.Blocked? then p else o.p);
            RunAll(acts, p) == (rest.0, [ev] + rest.1) && RunAll(acts, p).1[0] == ev && RunAll(acts, p).1[1..] == rest.1
  {
    hide Step;
  }

  /** In every interleaving, both source registers are two-slot rings all along exactly if no
      attempt overwrites an outstanding bank. */
  lemma {:induction false} FollowsIffUnbroken(acts: seq<Action>, p: Pair, ra: Ring, rb: Ring)
    requires InRing(p.a, ra) && InRing(p.b, rb)
    ensures WellFormed(p)
    ensures Unbroken(RunAll(acts, p).1, ra, rb) <==> Follows(acts, p, ra, rb)
    decreases |acts|
  {
    hide InRing, Step, Fits, Breaks, NextRings, RunAll;
    Ownership(p.a, ra);
    Ownership(p.b, rb);
    if acts == [] {
      NoEvent(p);
    } else {
      EventFits(p, acts[0], ra, rb);
      FirstEvent(acts, p);
      var o := Step(p, acts[0]);
      var ev := if o.Blocked? then Waited(acts[0]) else Did(acts[0], o.e);
      var p' := if o.Blocked? then p else o.p;
      var (ra', rb') := NextRings(ev, ra, rb);
      if !Breaks(ev, ra, rb) {
        FollowsIffUnbroken(acts[1..], p', ra', rb');
      }
    }
  }

  lemma NoEvent(p: Pair)
    requires WellFormed(p)
    ensures RunAll([], p) == (p, [])
  {}

  /** Such a run's log is explained by the rings, and they describe the registers at its end. */
  lemma {:induction false} RunRefines(acts: seq<Action>, p: Pair, ra: Ring, rb: Ring)
    requires InRing(p.a, ra) && InRing(p.b, rb) && WellFormed(p) && Unbroken(RunAll(acts, p).1, ra, rb)
    ensures var (p', log) := RunAll(acts, p);
            && Explained(log, ra, rb)
            && InRing(p'.a, RingsAfter(log, ra, rb).0) && InRing(p'.b, RingsAfter(log, ra, rb).1)
    decreases |acts|
  {
    hide InRing, Step, Fits, NextRings, Breaks, RunAll;
    if acts == [] {
      NoEvent(p);
    } else {
      EventFits(p, acts[0], ra, rb);
      FirstEvent(acts, p);
      var o := Step(p, acts[0]);
      var ev := if o.Blocked? then Waited(acts[0]) else Did(acts[0], o.e);
      var p' := if o.Blocked? then p else o.p;
      var (ra', rb') := NextRings(ev, ra, rb);
      Ownership(p'.a, ra');
      Ownership(p'.b, rb');
      RunRefines(acts[1..], p', ra', rb');
    }
  }

  /** ZEROSRC of both banks only when it waits for the matrix unit's bank. */
  predicate Allowed(act: Action) {
    act.ZeroSrc? && act.both ==> !act.likeUnpacr
  }

  /** A run of such instructions never overwrites an outstanding bank. */
  lemma {:induction false} AllowedUnbroken(acts: seq<Action>, p: Pair, ra: Ring, rb: Ring)
    requires InRing(p.a, ra) && InRing(p.b, rb) && forall j :: 0 <= j < |acts| ==> Allowed(acts[j])
    ensures WellFormed(p) && Unbroken(RunAll(acts, p).1, ra, rb)
    decreases |acts|
  {
    hide InRing, Step, Fits, NextRings, RunAll, Allowed;
    Ownership(p.a, ra);
    Ownership(p.b, rb);
    if acts == [] {
      NoEvent(p);
    } else {
      EventFits(p, acts[0], ra, rb);
      FirstEvent(acts, p);
      if Step(p, acts[0]).Done? { AllowedKeeps(p, acts[0], ra, rb); }
      var o := Step(p, acts[0]);
      var ev := if o.Blocked? then Waited(acts[0]) else Did(acts[0], o.e);
      var (ra', rb') := NextRings(ev, ra, rb);
      AllowedUnbroken(acts[1..], if o.Blocked? then p else o.p, ra', rb');
    }
  }

  lemma AllowedKeeps(p: Pair, act: Action, ra: Ring, rb: Ring)
    requires InRing(p.a, ra) && InRing(p.b, rb) && Allowed(act) && WellFormed(p) && Step(p, act).Done?
    ensures !Breaks(Did(act, Step(p, act).e), ra, rb)
  {
    Ownership(p.a, ra);
    Ownership(p.b, rb);
  }

  // ------------------------------------------------ since the last reset

  function Joined(e: Effect, f: Effect): Effect {
    Effect(e.toA + f.toA, e.fromA + f.fromA, e.toB + f.toB, e.fromB + f.fromB, e.read + f.read)
  }

  predicate IsReset(ev: Event) { ev.Did? && ev.act.Reset? }

  predicate HasReset(log: seq<Event>) { log != [] && (IsReset(log[0]) || HasReset(log[1..])) }

  /** Everything handed over, given back and read since the last reset. */
  function Since(log: seq<Event>): Effect {
    if log == [] then Effect([], [], [], [], [])
    else
      var rest := Since(log[1..]);
      if HasReset(log[1..]) || log[0].Waited? || IsReset(log[0]) then rest else Joined(log[0].e, rest)
  }

  function Origin(log: seq<Event>, r: Ring): Ring { if HasReset(log) then Ring([], 0) else r }

  lemma InOrderJoin(r: Ring, to: seq<Slot>, from: seq<Slot>, to': seq<Slot>, from': seq<Slot>)
    requires InOrder(r, to, from) && InOrder(After(r, to, from), to', from')
    ensures InOrder(r, to + to', from + from')
    ensures After(After(r, to, from), to', from') == After(r, to + to', from + from')
  {
    var h, k := r.handed, r.released;
    assert (h + to) + to' == h + (to + to');
    assert from == (h + (to + to'))[k..k + |from|];
    assert from + from' == (h + (to + to'))[k..k + |from| + |from'|];
  }

  /** Since the last reset banks have come back exactly in hand-over order, and the rings
      hold the difference. */
  lemma {:induction false} ReleasedInOrder(log: seq<Event>, ra: Ring, rb: Ring)
    requires Explained(log, ra, rb) && ra.released <= |ra.handed| && rb.released <= |rb.handed|
    ensures var e := Since(log);
            && InOrder(Origin(log, ra), e.toA, e.fromA) && InOrder(Origin(log, rb), e.toB, e.fromB)
            && RingsAfter(log, ra, rb) ==
               (After(Origin(log, ra), e.toA, e.fromA), After(Origin(log, rb), e.toB, e.fromB))
  {
    if log == [] {
      NothingMoved(ra);
      NothingMoved(rb);
    } else {
      hide InOrder, After, Fits;
      var (ra', rb') := NextRings(log[0], ra, rb);
      FitsFormed(log, ra, rb);
      ReleasedInOrder(log[1..], ra', rb');
      if log[0].Did? && !IsReset(log[0]) && !HasReset(log[1..]) {
        var e, f := log[0].e, Since(log[1..]);
        InOrderJoin(ra, e.toA, e.fromA, f.toA, f.fromA);
        InOrderJoin(rb, e.toB, e.fromB, f.toB, f.fromB);
      }
    }
  }

  lemma NothingMoved(r: Ring)
    requires r.released <= |r.handed|
    ensures InOrder(r, [], []) && After(r, [], []) == r
  {
    assert r.handed + [] == r.handed;
  }

  /** No more comes back than was handed over. */
  lemma FitsFormed(log: seq<Event>, ra: Ring, rb: Ring)
    requires log != [] && Explained(log, ra, rb)
    ensures log[0].Did? ==> InOrder(ra, log[0].e.toA, log[0].e.fromA) && InOrder(rb, log[0].e.toB, log[0].e.fromB)
    ensures var (ra', rb') := NextRings(log[0], ra, rb); ra'.released <= |ra'.handed| && rb'.released <= |rb'.handed|
  {}

  /** Both together: after any run the registers are the rings that its effects since the
      last reset build up, and banks have come back in hand-over order. */
  lemma EveryRun(acts: seq<Action>, p: Pair, ra: Ring, rb: Ring)
    requires InRing(p.a, ra) && InRing(p.b, rb) && WellFormed(p) && Unbroken(RunAll(acts, p).1, ra, rb)
    ensures var (p', log) := RunAll(acts, p);
            var e := Since(log);
            && InRing(p'.a, After(Origin(log, ra), e.toA, e.fromA)) && InOrder(Origin(log, ra), e.toA, e.fromA)
            && InRing(p'.b, After(Origin(log, rb), e.toB, e.fromB)) && InOrder(Origin(log, rb), e.toB, e.fromB)
  {
    hide Explained, RingsAfter, Since, After, InOrder, RunAll, Unbroken;
    RunRefines(acts, p, ra, rb);
    ReleasedInOrder(RunAll(acts, p).1, ra, rb);
  }
}

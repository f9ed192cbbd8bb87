/**
 * The exception-processing vector table of the SmartFusion A2F reset code
 * (`vectors[]` in cpu/arm_cortexm3/start.c). The C source builds it with
 * designated initialisers (C99 section 6.7.8) and GCC's `[first ... last]`
 * range extension; this module models that initialiser, and proves the layout the ARMv7-M
 * Architecture Reference Manual expects (section B1.5.3: word 0 is the
 * initial main stack pointer, word n >= 1 is the entry of exception n).
 */
module Vectors {
  import opened Words

  /** Exception numbers 0..15 are fixed by the architecture (section B1.5.2). */
  const SystemVectorCount: nat := 16

  /** Slots in the A2F table: `[2 ... 165]` is its largest designator. */
  const VectorCount: nat := 166

  /** Initial stack pointer stored in slot 0: the top of the first 64 KiB of SRAM. */
  const InitialStackPointer: Word := 0x2001_0000

  /** One designated initialiser `[first ... last] = value`. */
  datatype Designator = Designator(first: nat, last: nat, value: Word)

  /** The length of an array of unknown size: one past its largest designated index. */
  function ArrayLength(ds: seq<Designator>): (n: nat)
    ensures forall k :: 0 <= k < |ds| ==> ds[k].last < n
    ensures n == 0 || exists k :: 0 <= k < |ds| && ds[k].last == n - 1
  {
    if ds == [] then 0
    else
      var n := ArrayLength(ds[..|ds| - 1]);
      var d := ds[|ds| - 1];
      assert forall k :: 0 <= k < |ds| - 1 ==> ds[..|ds| - 1][k] == ds[k];
      if n <= d.last then d.last + 1 else n
  }

  /** The designator d names element i. */
  predicate Covers(d: Designator, i: nat)
  {
    d.first <= i <= d.last
  }

  /** No designator after position k names element i. */
  predicate LastCover(ds: seq<Designator>, k: nat, i: nat)
  {
    forall m :: k < m < |ds| ==> !Covers(ds[m], i)
  }

  /**
   * The value of element i: the last designator that covers i wins; an
   * element no designator covers is zero-initialised.
   */
  function ValueAt(ds: seq<Designator>, i: nat): (v: Word)
    ensures forall k :: 0 <= k < |ds| && Covers(ds[k], i) && LastCover(ds, k, i) ==> v == ds[k].value
    ensures (forall k :: 0 <= k < |ds| ==> !Covers(ds[k], i)) ==> v == 0
  {
    if ds == [] then 0
    else
      var d := ds[|ds| - 1];
      if Covers(d, i) then d.value
      else
        var init := ds[..|ds| - 1];
        var v := ValueAt(init, i);
        assert forall k :: 0 <= k < |ds| - 1 ==> init[k] == ds[k];
        assert forall k :: 0 <= k < |ds| - 1 && LastCover(ds, k, i) ==> LastCover(init, k, i);
        v
  }

  /**
   * The array a list of designated initialisers defines: every designated
   * element lies inside it and holds the value of the last designator that
   * names it; every other element is zero.
   */
  function Initialise(ds: seq<Designator>): (t: seq<Word>)
    ensures forall k: nat, i: nat :: k < |ds| && Covers(ds[k], i) && LastCover(ds, k, i) ==> i < |t| && t[i] == ds[k].value
    ensures forall i: nat :: i < |t| && (forall k :: 0 <= k < |ds| ==> !Covers(ds[k], i)) ==> t[i] == 0
  {
    seq(ArrayLength(ds), i requires 0 <= i => ValueAt(ds, i))
  }

  /** The initialiser of `vectors[]`, with the two linker-placed addresses as parameters. */
  function VectorInitialiser(startAddr: Word, defaultIsrAddr: Word): seq<Designator>
  {
    [ Designator(0, 0, InitialStackPointer),
      Designator(1, 1, startAddr),
      Designator(2, VectorCount - 1, defaultIsrAddr) ]
  }

  /** The vector table as the compiler lays it out. */
  function Table(startAddr: Word, defaultIsrAddr: Word): seq<Word>
  {
    Initialise(VectorInitialiser(startAddr, defaultIsrAddr))
  }

  /**
   * The table has exactly 166 slots: slot 0 holds the initial stack pointer,
   * slot 1 the reset entry `_start`, and every later slot `default_isr`.
   */
  lemma {:induction false} TableLayout(startAddr: Word, defaultIsrAddr: Word)
    ensures |Table(startAddr, defaultIsrAddr)| == VectorCount
    ensures Table(startAddr, defaultIsrAddr)[0] == InitialStackPointer
    ensures Table(startAddr, defaultIsrAddr)[1] == startAddr
    ensures forall i :: 2 <= i < VectorCount ==> Table(startAddr, defaultIsrAddr)[i] == defaultIsrAddr
  {
    var ds := VectorInitialiser(startAddr, defaultIsrAddr);
    assert ds[..2][..1] == ds[..1];
    assert ArrayLength(ds[..1]) == 1;
    assert ArrayLength(ds[..2]) == 2;
    assert ArrayLength(ds) == VectorCount;
    assert ds[..2][..1] == [ds[0]];
    forall i | 0 <= i < VectorCount
      ensures ValueAt(ds, i) == if i == 0 then InitialStackPointer else if i == 1 then startAddr else defaultIsrAddr
    {
      if i < 2 {
        assert ValueAt(ds, i) == ValueAt(ds[..2], i);
        if i == 0 {
          assert ValueAt(ds[..2], 0) == ValueAt(ds[..2][..1], 0);
        }
      }
    }
  }

  /** How many slots of t hold the word w. */
  function Occurrences(t: seq<Word>, w: Word): (n: nat)
    ensures n <= |t|
    ensures n == 0 <==> forall i :: 0 <= i < |t| ==> t[i] != w
  {
    if t == [] then 0
    else Occurrences(t[1..], w) + (if t[0] == w then 1 else 0)
  }

  /** Counting is additive over concatenation. */
  lemma {:induction false} OccurrencesAppend(a: seq<Word>, b: seq<Word>, w: Word)
    ensures Occurrences(a + b, w) == Occurrences(a, w) + Occurrences(b, w)
  {
    if a != [] {
      assert (a + b)[1..] == a[1..] + b;
      OccurrencesAppend(a[1..], b, w);
    } else {
      assert a + b == b;
    }
  }

  /**
   * With `_start` and `default_isr` placed anywhere but the stack top, the
   * table has exactly one stack-pointer slot, and `default_isr` fills every
   * slot but the first two.
   */
  lemma {:induction false} StackSlotUnique(startAddr: Word, defaultIsrAddr: Word)
    requires startAddr != InitialStackPointer && defaultIsrAddr != InitialStackPointer
    ensures Occurrences(Table(startAddr, defaultIsrAddr), InitialStackPointer) == 1
    ensures startAddr != defaultIsrAddr ==>
      Occurrences(Table(startAddr, defaultIsrAddr), defaultIsrAddr) == VectorCount - 2
    ensures Occurrences(Table(startAddr, defaultIsrAddr), 0) == 0 <==> startAddr != 0 && defaultIsrAddr != 0
  {
    TableLayout(startAddr, defaultIsrAddr);
    LayoutOccurrences(Table(startAddr, defaultIsrAddr), startAddr, defaultIsrAddr);
  }

  /** The slot counts of any table laid out as `vectors` is. */
  lemma LayoutOccurrences(t: seq<Word>, startAddr: Word, defaultIsrAddr: Word)
    requires |t| == VectorCount && t[0] == InitialStackPointer && t[1] == startAddr
    requires forall i :: 2 <= i < |t| ==> t[i] == defaultIsrAddr
    requires startAddr != InitialStackPointer && defaultIsrAddr != InitialStackPointer
    ensures Occurrences(t, InitialStackPointer) == 1
    ensures startAddr != defaultIsrAddr ==> Occurrences(t, defaultIsrAddr) == VectorCount - 2
    ensures Occurrences(t, 0) == 0 <==> startAddr != 0 && defaultIsrAddr != 0
  {
    assert t == t[..2] + t[2..];
    assert t[..2] == [InitialStackPointer] + [startAddr];
    OccurrencesAppend(t[..2], t[2..], InitialStackPointer);
    OccurrencesAppend(t[..2], t[2..], defaultIsrAddr);
    OccurrencesAppend([InitialStackPointer], [startAddr], InitialStackPointer);
    OccurrencesAppend([InitialStackPointer], [startAddr], defaultIsrAddr);
    OccurrencesConstant(t[2..], defaultIsrAddr, InitialStackPointer);
    OccurrencesConstant(t[2..], defaultIsrAddr, defaultIsrAddr);
  }

  /** A run of one word contains w either everywhere or nowhere. */
  lemma {:induction false} OccurrencesConstant(t: seq<Word>, x: Word, w: Word)
    requires forall i :: 0 <= i < |t| ==> t[i] == x
    ensures Occurrences(t, w) == if x == w then |t| else 0
  {
    if t != [] {
      OccurrencesConstant(t[1..], x, w);
    }
  }

  /** The entry the core fetches for exception number n (section B1.5.3). */
  function Dispatch(t: seq<Word>, n: nat): (entry: Word)
    requires 1 <= n < |t|
  {
    t[n]
  }

  /**
   * A reset enters `_start`; every other exception this table covers enters
   * `default_isr`.
   */
  lemma DispatchTargets(startAddr: Word, defaultIsrAddr: Word, n: nat)
    requires 1 <= n < VectorCount
    ensures |Table(startAddr, defaultIsrAddr)| == VectorCount
    ensures Dispatch(Table(startAddr, defaultIsrAddr), n) == if n == 1 then startAddr else defaultIsrAddr
  {
    TableLayout(startAddr, defaultIsrAddr);
  }
}

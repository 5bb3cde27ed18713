/** The ioctl command word: direction, size, type and number packed into 32 bits by shift and or, and taken apart by
    shift and mask. A word is its bits, lowest first; the field widths are parameters, since an architecture may
    override those of size and direction. */
module IoctlCodec {

  type Word = w: seq<bool> | |w| == 32 witness seq(32, _ => false)

  function Shl(w: Word, k: nat): Word {
    seq(32, i requires 0 <= i < 32 => i >= k && w[i - k])
  }

  function Shr(w: Word, k: nat): Word {
    seq(32, i requires 0 <= i < 32 => i + k < 32 && w[i + k])
  }

  function Or(a: Word, b: Word): Word {
    seq(32, i requires 0 <= i < 32 => a[i] || b[i])
  }

  function And(a: Word, b: Word): Word {
    seq(32, i requires 0 <= i < 32 => a[i] && b[i])
  }

  /** The word of (1 << bits) - 1. */
  function Mask(bits: nat): Word {
    seq(32, i => i < bits)
  }

  /** The word of 1 << k. */
  function Bit(k: nat): Word {
    seq(32, i => i == k)
  }

  function Zero(): Word {
    seq(32, i => false)
  }

  /** Widths of the number, type, size and direction fields. */
  datatype Layout = Layout(nrBits: nat, typeBits: nat, sizeBits: nat, dirBits: nat) {

    predicate Valid() {
      nrBits + typeBits + sizeBits + dirBits == 32
    }

    function TypeShift(): nat { nrBits }
    function SizeShift(): nat { TypeShift() + typeBits }
    function DirShift(): nat { SizeShift() + sizeBits }
  }

  datatype Fields = Fields(dir: Word, typ: Word, nr: Word, size: Word)

  function Encode(l: Layout, f: Fields): Word {
    Or(Or(Or(Shl(f.dir, l.DirShift()), Shl(f.typ, l.TypeShift())), Shl(f.nr, 0)), Shl(f.size, l.SizeShift()))
  }

  function Decode(l: Layout, w: Word): Fields {
    Fields(And(Shr(w, l.DirShift()), Mask(l.dirBits)),
           And(Shr(w, l.TypeShift()), Mask(l.typeBits)),
           And(Shr(w, 0), Mask(l.nrBits)),
           And(Shr(w, l.SizeShift()), Mask(l.sizeBits)))
  }

  /** No bit is set but the lowest ones. */
  ghost predicate Fits(w: Word, bits: nat) {
    forall i :: bits <= i < 32 ==> !w[i]
  }

  ghost predicate InRange(l: Layout, f: Fields) {
    Fits(f.dir, l.dirBits) && Fits(f.typ, l.typeBits) && Fits(f.nr, l.nrBits) && Fits(f.size, l.sizeBits)
  }

  // ---------- Words as numbers ----------

  function Power(k: nat): nat {
    if k == 0 then 1 else 2 * Power(k - 1)
  }

  function ValueBelow(w: Word, n: nat): nat
    requires n <= 32
  {
    if n == 0 then 0 else ValueBelow(w, n - 1) + if w[n - 1] then Power(n - 1) else 0
  }

  /** The number that a word stands for. */
  function Value(w: Word): nat {
    ValueBelow(w, 32)
  }

  lemma {:induction false} BelowPower(w: Word, n: nat)
    requires n <= 32
    ensures ValueBelow(w, n) < Power(n)
  {
    if n == 0 {
    } else {
      BelowPower(w, n - 1);
    }
  }

  lemma {:induction false} PowersGrow(k: nat, n: nat)
    requires k <= n
    ensures Power(k) <= Power(n)
    decreases n
  {
    if k == n {
    } else {
      PowersGrow(k, n - 1);
    }
  }

  lemma {:induction false} NothingAbove(w: Word, k: nat, n: nat)
    requires k <= n <= 32
    ensures (forall i :: k <= i < n ==> !w[i]) ==> ValueBelow(w, n) == ValueBelow(w, k)
    ensures (exists i :: k <= i < n && w[i]) ==> ValueBelow(w, n) >= Power(k)
    decreases n
  {
    if k == n {
    } else {
      NothingAbove(w, k, n - 1);
      PowersGrow(k, n - 1);
    }
  }

  /** A word fits a field just when its value is below 2 to the power of the width of the field. */
  lemma FitsIs(w: Word, bits: nat)
    ensures Fits(w, bits) <==> Value(w) < Power(bits)
  {
    BelowPower(w, 32);
    if bits <= 32 {
      NothingAbove(w, bits, 32);
      BelowPower(w, bits);
    } else {
      PowersGrow(32, bits);
    }
  }

  lemma {:induction false} MaskBelow(bits: nat, n: nat)
    requires n <= 32
    ensures ValueBelow(Mask(bits), n) == Power(if n < bits then n else bits) - 1
  {
    if n == 0 {
    } else {
      MaskBelow(bits, n - 1);
    }
  }

  lemma {:induction false} BitBelow(k: nat, n: nat)
    requires n <= 32
    ensures ValueBelow(Bit(k), n) == if k < n then Power(k) else 0
  {
    if n == 0 {
    } else {
      BitBelow(k, n - 1);
    }
  }

  /** The constants of the code: a mask is a power of 2 less 1, and a shifted 1 is a power of 2. */
  lemma ConstantsAre(k: nat)
    requires k <= 32
    ensures Value(Mask(k)) == Power(k) - 1
    ensures k < 32 ==> Value(Bit(k)) == Power(k)
  {
    MaskBelow(k, 32);
    BitBelow(k, 32);
  }

  /** A number is the value of one word only. */
  lemma SameValue(a: Word, b: Word)
    requires Value(a) == Value(b)
    ensures a == b
  {
    SameValueBelow(a, b, 32);
  }

  lemma {:induction false} SameValueBelow(a: Word, b: Word, n: nat)
    requires n <= 32 && ValueBelow(a, n) == ValueBelow(b, n)
    ensures forall i :: 0 <= i < n ==> a[i] == b[i]
  {
    if n == 0 {
    } else {
      BelowPower(a, n - 1);
      BelowPower(b, n - 1);
      SameValueBelow(a, b, n - 1);
    }
  }

  lemma {:induction false} ShiftedBelow(w: Word, k: nat, n: nat)
    requires k <= n <= 32
    ensures ValueBelow(Shl(w, k), n) == ValueBelow(w, n - k) * Power(k)
    decreases n
  {
    if n == k {
      NothingAbove(Shl(w, k), 0, k);
    } else {
      hide Shl, ValueBelow, Power;
      ShiftedBelow(w, k, n - 1);
      PowersAdd(n - 1 - k, k);
      TimesSum(ValueBelow(w, n - 1 - k), Power(n - 1 - k), Power(k));
      ShiftedBit(w, k, n);
    }
  }

  lemma TimesSum(v: nat, q: nat, p: nat)
    ensures (v + q) * p == v * p + q * p
  {
  }

  lemma ShiftedBit(w: Word, k: nat, n: nat)
    requires k < n <= 32
    ensures Shl(w, k)[n - 1] == w[n - 1 - k]
    ensures ValueBelow(Shl(w, k), n) == ValueBelow(Shl(w, k), n - 1) + if w[n - 1 - k] then Power(n - 1) else 0
    ensures ValueBelow(w, n - k) == ValueBelow(w, n - 1 - k) + if w[n - 1 - k] then Power(n - 1 - k) else 0
  {
  }

  lemma {:induction false} PowersAdd(a: nat, b: nat)
    ensures Power(a + b) == Power(a) * Power(b)
  {
    if a == 0 {
    } else {
      PowersAdd(a - 1, b);
    }
  }

  lemma {:induction false} OredBelow(a: Word, b: Word, n: nat)
    requires n <= 32 && forall i :: 0 <= i < n ==> !a[i] || !b[i]
    ensures ValueBelow(Or(a, b), n) == ValueBelow(a, n) + ValueBelow(b, n)
  {
    if n == 0 {
    } else {
      OredBelow(a, b, n - 1);
    }
  }

  lemma ShiftedValue(w: Word, k: nat)
    requires k <= 32 && Fits(w, 32 - k)
    ensures Value(Shl(w, k)) == Value(w) * Power(k)
  {
    ShiftedBelow(w, k, 32);
    NothingAbove(w, 32 - k, 32);
  }

  /** The shifted fields have no bit in common. */
  lemma FieldsApart(l: Layout, f: Fields)
    requires l.Valid() && InRange(l, f)
    ensures var dir, typ, nr, size := Shl(f.dir, l.DirShift()), Shl(f.typ, l.TypeShift()), Shl(f.nr, 0), Shl(f.size, l.SizeShift());
            && (forall i :: 0 <= i < 32 ==> !dir[i] || !typ[i])
            && (forall i :: 0 <= i < 32 ==> !Or(dir, typ)[i] || !nr[i])
            && (forall i :: 0 <= i < 32 ==> !Or(Or(dir, typ), nr)[i] || !size[i])
  {
  }

  lemma Unshifted(w: Word)
    ensures Shl(w, 0) == w
  {
  }

  lemma FieldValues(l: Layout, f: Fields)
    requires l.Valid() && InRange(l, f)
    ensures Value(Shl(f.nr, 0)) == Value(f.nr) && Value(Shl(f.typ, l.TypeShift())) == Value(f.typ) * Power(l.TypeShift())
    ensures Value(Shl(f.size, l.SizeShift())) == Value(f.size) * Power(l.SizeShift())
    ensures Value(Shl(f.dir, l.DirShift())) == Value(f.dir) * Power(l.DirShift())
  {
    hide Shl, Power, Value;
    Unshifted(f.nr);
    ShiftedValue(f.dir, l.DirShift());
    ShiftedValue(f.typ, l.TypeShift());
    ShiftedValue(f.size, l.SizeShift());
  }

  /** The command as a number: the fields are its digits, each at its own place. */
  lemma EncodedValue(l: Layout, f: Fields)
    requires l.Valid() && InRange(l, f)
    ensures Value(Encode(l, f)) == Value(f.nr) + Value(f.typ) * Power(l.TypeShift())
                                   + Value(f.size) * Power(l.SizeShift()) + Value(f.dir) * Power(l.DirShift())
  {
    hide Shl, Or, Power, Fits, InRange, ValueBelow;
    var dir, typ, nr, size := Shl(f.dir, l.DirShift()), Shl(f.typ, l.TypeShift()), Shl(f.nr, 0), Shl(f.size, l.SizeShift());
    FieldsApart(l, f);
    FieldValues(l, f);
    OredBelow(dir, typ, 32);
    OredBelow(Or(dir, typ), nr, 32);
    OredBelow(Or(Or(dir, typ), nr), size, 32);
  }

  // ---------- The codec is a bijection ----------

  lemma DecodedInRange(l: Layout, w: Word)
    ensures InRange(l, Decode(l, w))
  {
  }

  /** Re-encoding the decoded fields of any word gives the word. */
  lemma EncodeDecode(l: Layout, w: Word)
    requires l.Valid()
    ensures Encode(l, Decode(l, w)) == w
  {
    hide Encode, InRange;
    var f := Decode(l, w);
    DecodedInRange(l, w);
    forall i | 0 <= i < 32 ensures Encode(l, f)[i] == w[i] {
      EncodedBit(l, f, i);
      if i < l.TypeShift() {
        assert f.nr[i] == w[i];
      } else if i < l.SizeShift() {
        assert f.typ[i - l.TypeShift()] == w[i];
      } else if i < l.DirShift() {
        assert f.size[i - l.SizeShift()] == w[i];
      } else {
        assert f.dir[i - l.DirShift()] == w[i];
      }
    }
  }

  /** Decoding an encoded tuple returns every field exactly when every field fits its width. */
  lemma DecodeEncode(l: Layout, f: Fields)
    requires l.Valid()
    ensures Decode(l, Encode(l, f)) == f <==> InRange(l, f)
  {
    DecodedInRange(l, Encode(l, f));
    if InRange(l, f) {
      DecodedFields(l, f);
    }
  }

  lemma DecodedFields(l: Layout, f: Fields)
    requires l.Valid() && InRange(l, f)
    ensures Decode(l, Encode(l, f)) == f
  {
    hide Encode, Decode, InRange;
    var w := Encode(l, f);
    forall i | 0 <= i < 32
      ensures i < l.dirBits ==> w[i + l.DirShift()] == f.dir[i]
      ensures i < l.typeBits ==> w[i + l.TypeShift()] == f.typ[i]
      ensures i < l.nrBits ==> w[i] == f.nr[i]
      ensures i < l.sizeBits ==> w[i + l.SizeShift()] == f.size[i]
    {
      EncodedBit(l, f, i);
      if i < l.dirBits {
        EncodedBit(l, f, i + l.DirShift());
      }
      if i < l.typeBits {
        EncodedBit(l, f, i + l.TypeShift());
      }
      if i < l.sizeBits {
        EncodedBit(l, f, i + l.SizeShift());
      }
    }
    SameFields(l, w, f);
  }

  /** Each bit of the command is a bit of one field. */
  lemma EncodedBit(l: Layout, f: Fields, i: nat)
    requires l.Valid() && InRange(l, f) && i < 32
    ensures Encode(l, f)[i] == if i < l.TypeShift() then f.nr[i]
                               else if i < l.SizeShift() then f.typ[i - l.TypeShift()]
                               else if i < l.DirShift() then f.size[i - l.SizeShift()]
                               else f.dir[i - l.DirShift()]
  {
  }

  lemma SameFields(l: Layout, w: Word, f: Fields)
    requires l.Valid() && InRange(l, f)
    requires forall i :: 0 <= i < 32 ==> (i < l.dirBits ==> w[i + l.DirShift()] == f.dir[i])
    requires forall i :: 0 <= i < 32 ==> (i < l.typeBits ==> w[i + l.TypeShift()] == f.typ[i])
    requires forall i :: 0 <= i < 32 ==> (i < l.nrBits ==> w[i] == f.nr[i])
    requires forall i :: 0 <= i < 32 ==> (i < l.sizeBits ==> w[i + l.SizeShift()] == f.size[i])
    ensures Decode(l, w) == f
  {
    var g := Decode(l, w);
    assert g.dir == f.dir;
    assert g.typ == f.typ;
    assert g.nr == f.nr;
    assert g.size == f.size;
  }

  /** Tuples that fit have different words. */
  lemma EncodeInjective(l: Layout, f: Fields, g: Fields)
    requires l.Valid() && InRange(l, f) && InRange(l, g) && Encode(l, f) == Encode(l, g)
    ensures f == g
  {
    DecodeEncode(l, f);
    DecodeEncode(l, g);
  }

  // ---------- The two layouts of the repository ----------

  /** A layout and its direction codes. */
  datatype Arch = Arch(layout: Layout, none: Word, read: Word, write: Word) {

    function Io(typ: Word, nr: Word): Word {
      Encode(layout, Fields(none, typ, nr, Zero()))
    }

    function Ior(typ: Word, nr: Word, size: Word): Word {
      Encode(layout, Fields(read, typ, nr, size))
    }

    function Iow(typ: Word, nr: Word, size: Word): Word {
      Encode(layout, Fields(write, typ, nr, size))
    }

    function Iowr(typ: Word, nr: Word, size: Word): Word {
      Encode(layout, Fields(Or(read, write), typ, nr, size))
    }
  }

  function Generic(): Arch {
    Arch(Layout(8, 8, 14, 2), Zero(), Bit(1), Bit(0))
  }

  function Mips(): Arch {
    Arch(Layout(8, 8, 13, 3), Bit(0), Bit(1), Bit(2))
  }

  /** With either layout, the command of a type and number below 256 and a size below the limit of that layout decodes
      to what it was made from; the limits are 2 to the power of 14 and of 13. */
  lemma BothLayoutsDecode(a: Arch, dir: Word, typ: Word, nr: Word, size: Word)
    requires a == Generic() || a == Mips()
    requires dir in {a.none, a.read, a.write, Or(a.read, a.write)}
    ensures var f := Fields(dir, typ, nr, size);
            Decode(a.layout, Encode(a.layout, f)) == f <==>
            Fits(typ, 8) && Fits(nr, 8) && Fits(size, if a == Generic() then 14 else 13)
  {
    var f := Fields(dir, typ, nr, size);
    DecodeEncode(a.layout, f);
    assert Fits(dir, a.layout.dirBits);
    assert a == Mips() ==> a.layout.sizeBits == 13;
    assert Generic().layout != Mips().layout;
  }

  /** The direction codes as numbers, and where the fields are. */
  lemma CodesAre()
    ensures Value(Generic().none) == 0 && Value(Generic().write) == 1 && Value(Generic().read) == 2
    ensures Value(Mips().none) == 1 && Value(Mips().read) == 2 && Value(Mips().write) == 4
    ensures forall a :: a == Generic() || a == Mips() ==> Value(Or(a.read, a.write)) == Value(a.read) + Value(a.write)
  {
    NothingAbove(Zero(), 0, 32);
    ConstantsAre(0);
    ConstantsAre(1);
    ConstantsAre(2);
    OredBelow(Bit(1), Bit(0), 32);
    OredBelow(Bit(1), Bit(2), 32);
  }

  /** What each command is made of: for arguments in range, decoding gives back its direction and the arguments. */
  lemma CommandsDecode(a: Arch, typ: Word, nr: Word, size: Word)
    requires a == Generic() || a == Mips()
    requires Fits(typ, 8) && Fits(nr, 8) && Fits(size, if a == Generic() then 14 else 13)
    ensures Decode(a.layout, a.Io(typ, nr)) == Fields(a.none, typ, nr, Zero())
    ensures Decode(a.layout, a.Ior(typ, nr, size)) == Fields(a.read, typ, nr, size)
    ensures Decode(a.layout, a.Iow(typ, nr, size)) == Fields(a.write, typ, nr, size)
    ensures Decode(a.layout, a.Iowr(typ, nr, size)) == Fields(Or(a.read, a.write), typ, nr, size)
  {
    hide Decode, Encode;
    BothLayoutsDecode(a, a.none, typ, nr, Zero());
    BothLayoutsDecode(a, a.read, typ, nr, size);
    BothLayoutsDecode(a, a.write, typ, nr, size);
    BothLayoutsDecode(a, Or(a.read, a.write), typ, nr, size);
  }

  /** The commands as numbers: number, type, size and direction in this order from the lowest bit on. */
  lemma CommandsValue(typ: Word, nr: Word, size: Word)
    requires Fits(typ, 8) && Fits(nr, 8) && Fits(size, 13)
    ensures var rest := Value(nr) + 0x100 * Value(typ) + 0x1_0000 * Value(size);
            && Value(Mips().Ior(typ, nr, size)) == rest + 0x4000_0000
            && Value(Mips().Iow(typ, nr, size)) == rest + 0x8000_0000
            && Value(Mips().Iowr(typ, nr, size)) == rest + 0xC000_0000
    ensures Value(Mips().Io(typ, nr)) == Value(nr) + 0x100 * Value(typ) + 0x2000_0000
    ensures Value(Generic().Io(typ, nr)) == Value(nr) + 0x100 * Value(typ)
  {
    CodesAre();
    PowersAre();
    NothingAbove(Zero(), 0, 32);
    CommandValue(Mips(), Mips().read, typ, nr, size);
    CommandValue(Mips(), Mips().write, typ, nr, size);
    CommandValue(Mips(), Or(Mips().read, Mips().write), typ, nr, size);
    CommandValue(Mips(), Mips().none, typ, nr, Zero());
    CommandValue(Generic(), Generic().none, typ, nr, Zero());
  }

  lemma PowersAre()
    ensures Power(8) == 0x100 && Power(16) == 0x1_0000 && Power(29) == 0x2000_0000 && Power(30) == 0x4000_0000
  {
    PowersAdd(8, 8);
    PowersAdd(16, 8);
    PowersAdd(24, 5);
  }

  lemma CommandValue(a: Arch, dir: Word, typ: Word, nr: Word, size: Word)
    requires a == Generic() || a == Mips()
    requires dir in {a.none, a.read, a.write, Or(a.read, a.write)}
    requires Fits(typ, 8) && Fits(nr, 8) && Fits(size, if a == Generic() then 14 else 13)
    ensures Value(Encode(a.layout, Fields(dir, typ, nr, size)))
         == Value(nr) + Value(typ) * Power(8) + Value(size) * Power(16) + Value(dir) * Power(if a == Generic() then 30 else 29)
  {
    hide Encode, Power, Value;
    DirFits(a, dir);
    EncodedValue(a.layout, Fields(dir, typ, nr, size));
  }

  lemma DirFits(a: Arch, dir: Word)
    requires a == Generic() || a == Mips()
    requires dir in {a.none, a.read, a.write, Or(a.read, a.write)}
    ensures Fits(dir, a.layout.dirBits) && a.layout.Valid()
    ensures a.layout.nrBits == a.layout.typeBits == 8 && a.layout.sizeBits == if a == Generic() then 14 else 13
    ensures a.layout.TypeShift() == 8 && a.layout.SizeShift() == 16
    ensures a.layout.DirShift() == if a == Generic() then 30 else 29
  {
    assert Generic().layout != Mips().layout;
  }

  /** A read command of the generic layout is the write command of the MIPS one, and the other way round; commands
      that do both are the same word. */
  lemma ReadAndWriteSwap(typ: Word, nr: Word, size: Word)
    ensures Generic().Ior(typ, nr, size) == Mips().Iow(typ, nr, size)
    ensures Generic().Iow(typ, nr, size) == Mips().Ior(typ, nr, size)
    ensures Generic().Iowr(typ, nr, size) == Mips().Iowr(typ, nr, size)
  {
    assert Shl(Bit(1), 30) == Bit(31) == Shl(Bit(2), 29);
    assert Shl(Bit(0), 30) == Bit(30) == Shl(Bit(1), 29);
    assert Shl(Or(Bit(1), Bit(0)), 30) == Or(Bit(31), Bit(30)) == Shl(Or(Bit(1), Bit(2)), 29);
  }

  /** A parameterless command of the generic layout is no command of the MIPS one: giving `none` a bit there makes
      the old numbers recognisable. */
  lemma GenericIoIsNoMipsCommand(typ: Word, nr: Word, f: Fields)
    requires Fits(typ, 8) && Fits(nr, 8)
    requires f.dir in {Mips().none, Mips().read, Mips().write, Or(Mips().read, Mips().write)} && InRange(Mips().layout, f)
    ensures Generic().Io(typ, nr) != Encode(Mips().layout, f)
  {
    var bare := Fields(Zero(), typ, nr, Zero());
    assert Shl(Zero(), 30) == Shl(Zero(), 29);
    assert Generic().Io(typ, nr) == Encode(Mips().layout, bare);
    assert f.dir[0] || f.dir[1] || f.dir[2];
    if Generic().Io(typ, nr) == Encode(Mips().layout, f) {
      EncodeInjective(Mips().layout, bare, f);
    }
  }
}

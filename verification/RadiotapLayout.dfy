/** The radiotap header format (radiotap.org): which fields a header holds and where they lie. */
module RadiotapLayout {
  import opened Wrappers

  type byte = x: int | 0 <= x < 256

  const RADIOTAP_NAMESPACE := 29
  const VENDOR_NAMESPACE := 30
  const EXT := 31
  const N_BITS := 23

  // ---------- the header's words ----------

  function Le16(d: seq<byte>, o: nat): nat
    requires o + 2 <= |d|
  {
    d[o] as int + 0x100 * d[o + 1] as int
  }

  function Le32(d: seq<byte>, o: nat): nat
    requires o + 4 <= |d|
  {
    d[o] as int + 0x100 * d[o + 1] as int + 0x1_0000 * d[o + 2] as int + 0x100_0000 * d[o + 3] as int
  }

  /** Presence word k. */
  function Word(d: seq<byte>, k: nat): nat
    requires 8 + 4 * k <= |d|
  {
    Le32(d, 4 + 4 * k)
  }

  /** w >> b */
  function Shifted(w: nat, b: nat): nat
  {
    if b == 0 then w else Shifted(w, b - 1) / 2
  }

  predicate Bit(w: nat, b: nat)
  {
    Shifted(w, b) % 2 == 1
  }

  /** Words 0 to last are the presence words: all but the last one announce another. */
  predicate Chain(d: seq<byte>, last: nat)
  {
    && 8 + 4 * last <= |d|
    && (forall k :: 0 <= k < last ==> Bit(Word(d, k), EXT))
    && !Bit(Word(d, last), EXT)
  }

  // ---------- the fields of the radiotap namespace ----------

  /** Bit 18 has no entry. */
  predicate Known(b: nat)
  {
    b < N_BITS && b != 18
  }

  function Align(b: nat): (a: nat)
    requires Known(b)
    ensures a == 1 || a == 2 || a == 4 || a == 8
  {
    match b
    case 0 => 8
    case 3 => 2
    case 4 => 2
    case 7 => 2
    case 8 => 2
    case 9 => 2
    case 14 => 2
    case 15 => 2
    case 20 => 4
    case 21 => 2
    case 22 => 8
    case _ => 1
  }

  function Size(b: nat): (s: nat)
    requires Known(b)
    ensures 1 <= s <= 12
  {
    match b
    case 0 => 8
    case 3 => 4
    case 4 => 2
    case 7 => 2
    case 8 => 2
    case 9 => 2
    case 14 => 2
    case 15 => 2
    case 19 => 3
    case 20 => 8
    case 21 => 12
    case 22 => 12
    case _ => 1
  }

  function AlignUp(off: nat, a: nat): (r: nat)
    requires a > 0
    ensures off <= r < off + a
  {
    if off % a == 0 then off else off + (a - off % a)
  }

  // ---------- the layout ----------

  datatype Field = Field(index: nat, offset: nat, size: nat)

  datatype Code = NoEntry | Invalid

  /** The fields of a header and how the list ends. */
  datatype Layout = Layout(fields: seq<Field>, end: Code)

  /** Some fields, the offset after them, and the reason if nothing can follow. */
  datatype Placed = Placed(fields: seq<Field>, off: nat, stop: Option<Code>)

  datatype Namespace = Standard | Foreign

  /** The field bits from b on that are set in w, in ascending order. */
  function SetBits(w: nat, b: nat): (s: seq<nat>)
    ensures forall i :: 0 <= i < |s| ==> b <= s[i] < RADIOTAP_NAMESPACE && Bit(w, s[i])
    decreases RADIOTAP_NAMESPACE - b
  {
    if b >= RADIOTAP_NAMESPACE then []
    else (if Bit(w, b) then [b] else []) + SetBits(w, b + 1)
  }

  /** All of them, each once. */
  lemma {:induction false} SetBitsExact(w: nat, b: nat)
    ensures forall k: nat :: k in SetBits(w, b) <==> b <= k < RADIOTAP_NAMESPACE && Bit(w, k)
    ensures forall i, j :: 0 <= i < j < |SetBits(w, b)| ==> SetBits(w, b)[i] < SetBits(w, b)[j]
    decreases RADIOTAP_NAMESPACE - b
  {
    hide Bit;
    if b < RADIOTAP_NAMESPACE {
      SetBitsExact(w, b + 1);
    }
  }

  /** The fields of the radiotap namespace with these bits, one behind the other. */
  function Place(bits: seq<nat>, off: nat, max: nat): Placed
    requires 18 !in bits
  {
    if bits == [] then Placed([], off, None)
    else if bits[0] >= N_BITS then Placed([], off, Some(NoEntry))
    else
      var o, size := AlignUp(off, Align(bits[0])), Size(bits[0]);
      if o + size > max then Placed([], off, Some(Invalid))
      else
        var r := Place(bits[1..], o + size, max);
        r.(fields := [Field(bits[0], o, size)] + r.fields)
  }

  /** The fields that the bits from b on of a presence word announce. A vendor's fields are skipped;
      only the first word of a radiotap namespace has fields. */
  function WordPart(w: nat, b: nat, ns: Namespace, first: bool, off: nat, max: nat): Placed
    requires ns.Standard? && first ==> 18 !in SetBits(w, b)
  {
    if ns.Foreign? || SetBits(w, b) == [] then Placed([], off, None)
    else if !first then Placed([], off, Some(NoEntry))
    else Place(SetBits(w, b), off, max)
  }

  /** The vendor namespace field: an opaque blob of six bytes and as many as they announce. */
  function VendorPart(d: seq<byte>, w: nat, off: nat, max: nat): Placed
    requires max <= |d|
  {
    if !Bit(w, VENDOR_NAMESPACE) then Placed([], off, None)
    else
      var o := AlignUp(off, 2);
      if o + 6 > max then Placed([], off, Some(Invalid))
      else
        var size := 6 + Le16(d, o + 4);
        if o + size > max then Placed([], off, Some(Invalid))
        else Placed([Field(VENDOR_NAMESPACE, o, size)], o + size, None)
  }

  function NextNamespace(w: nat, ns: Namespace): Namespace
  {
    if Bit(w, VENDOR_NAMESPACE) then Foreign else if Bit(w, RADIOTAP_NAMESPACE) then Standard else ns
  }

  function Restarts(w: nat): bool
  {
    Bit(w, RADIOTAP_NAMESPACE) || Bit(w, VENDOR_NAMESPACE)
  }

  /** Bit 18 is clear in every word, from k on, that holds fields of the radiotap namespace. */
  predicate Supported(d: seq<byte>, k: nat, last: nat, ns: Namespace, first: bool)
    requires Chain(d, last) && k <= last
    decreases last - k
  {
    && (ns.Standard? && first ==> !Bit(Word(d, k), 18))
    && (k < last ==> Supported(d, k + 1, last, NextNamespace(Word(d, k), ns), Restarts(Word(d, k))))
  }

  lemma {:induction false} NoHole(w: nat, b: nat)
    ensures !Bit(w, 18) ==> 18 !in SetBits(w, b)
    decreases RADIOTAP_NAMESPACE - b
  {
    if b < RADIOTAP_NAMESPACE {
      NoHole(w, b + 1);
    }
  }

  /** What presence word w announces from bit b on, its vendor blob behind the other fields. The radiotap
      namespace bit is no field, but finding it beyond the header's end is an error. */
  function WordFields(d: seq<byte>, w: nat, b: nat, ns: Namespace, first: bool, off: nat, max: nat): Placed
    requires max <= |d| && (ns.Standard? && first ==> !Bit(w, 18)) && b <= RADIOTAP_NAMESPACE
  {
    NoHole(w, b);
    var p := WordPart(w, b, ns, first, off, max);
    if p.stop.Some? then p
    else if Bit(w, RADIOTAP_NAMESPACE) && p.off > max then p.(stop := Some(Invalid))
    else
      var v := VendorPart(d, w, p.off, max);
      v.(fields := p.fields + v.fields)
  }

  /** The layout from word k on, its first field starting at off or behind. */
  function LayoutFrom(d: seq<byte>, k: nat, last: nat, off: nat, ns: Namespace, first: bool, max: nat): Layout
    requires Chain(d, last) && k <= last && max <= |d| && Supported(d, k, last, ns, first)
    decreases last - k
  {
    var w := Word(d, k);
    var p := WordFields(d, w, 0, ns, first, off, max);
    if p.stop.Some? then Layout(p.fields, p.stop.value)
    else if k == last then Layout(p.fields, NoEntry)
    else if p.off > max then Layout(p.fields, Invalid)
    else
      var r := LayoutFrom(d, k + 1, last, p.off, NextNamespace(w, ns), Restarts(w), max);
      Layout(p.fields + r.fields, r.end)
  }

  /** The layout of a header of max bytes: fields start behind the last presence word. */
  function HeaderLayout(d: seq<byte>, last: nat, max: nat): Layout
    requires Chain(d, last) && max <= |d| && Supported(d, 0, last, Standard, true)
  {
    LayoutFrom(d, 0, last, 8 + 4 * last, Standard, true, max)
  }

  // ---------- order, alignment and bounds ----------

  /** What a field is aligned to. */
  function AlignOf(index: nat): (a: nat)
    ensures a == 1 || a == 2 || a == 4 || a == 8
  {
    if Known(index) then Align(index) else if index == VENDOR_NAMESPACE then 2 else 1
  }

  /** A field has the size the format says; a vendor's field announces its own. */
  predicate Sized(d: seq<byte>, f: Field)
  {
    if Known(f.index) then f.size == Size(f.index)
    else f.index == VENDOR_NAMESPACE && f.offset + 6 <= |d| && f.size == 6 + Le16(d, f.offset + 4)
  }

  /** Every field starts at the first aligned offset behind lo or the field before it, has its size, and
      ends at max or before. */
  predicate Ordered(d: seq<byte>, fields: seq<Field>, lo: nat, max: nat)
  {
    fields == [] ||
    (var f := fields[0];
     && f.offset == AlignUp(lo, AlignOf(f.index))
     && Sized(d, f)
     && f.offset + f.size <= max
     && Ordered(d, fields[1..], f.offset + f.size, max))
  }

  /** Where the last field ends. */
  function End(fields: seq<Field>, lo: nat): nat
  {
    if fields == [] then lo else fields[|fields| - 1].offset + fields[|fields| - 1].size
  }

  lemma AlignUpAligned(off: nat, a: nat)
    requires a == 1 || a == 2 || a == 4 || a == 8
    ensures AlignUp(off, a) % a == 0
  {
  }

  /** Fields in order from lo to hi. */
  predicate Fills(d: seq<byte>, fields: seq<Field>, lo: nat, hi: nat, max: nat)
  {
    Ordered(d, fields, lo, max) && hi == End(fields, lo)
  }

  lemma {:induction false} FillsConcat(d: seq<byte>, a: seq<Field>, b: seq<Field>, lo: nat, mid: nat, max: nat)
    requires Fills(d, a, lo, mid, max) && Ordered(d, b, mid, max)
    ensures Ordered(d, a + b, lo, max) && End(a + b, lo) == End(b, mid)
  {
    if a == [] {
      assert a + b == b;
    } else {
      var f := a[0];
      assert (a + b)[1..] == a[1..] + b;
      FillsConcat(d, a[1..], b, f.offset + f.size, mid, max);
    }
  }

  lemma {:induction false} PlaceOrdered(d: seq<byte>, bits: seq<nat>, off: nat, max: nat)
    requires 18 !in bits
    ensures var p := Place(bits, off, max);
      Fills(d, p.fields, off, p.off, max)
  {
    hide Align, Size, Sized;
    if bits != [] && bits[0] < N_BITS {
      var a, size := Align(bits[0]), Size(bits[0]);
      var o := AlignUp(off, a);
      if o + size <= max {
        PlaceOrdered(d, bits[1..], o + size, max);
        var r := Place(bits[1..], o + size, max);
        assert ([Field(bits[0], o, size)] + r.fields)[1..] == r.fields;
        assert Sized(d, Field(bits[0], o, size)) by { KnownSized(d, Field(bits[0], o, size)); }
      }
    }
  }

  lemma KnownSized(d: seq<byte>, f: Field)
    requires Known(f.index) && f.size == Size(f.index)
    ensures Sized(d, f)
  {
  }

  lemma VendorOrdered(d: seq<byte>, w: nat, off: nat, max: nat)
    requires max <= |d|
    ensures var v := VendorPart(d, w, off, max);
      Fills(d, v.fields, off, v.off, max)
  {
    hide Bit;
    var v := VendorPart(d, w, off, max);
    assert v.fields != [] ==> v.fields[1..] == [] && Ordered(d, v.fields[1..], v.off, max);
  }

  lemma WordOrdered(d: seq<byte>, w: nat, ns: Namespace, first: bool, off: nat, max: nat)
    requires max <= |d| && (ns.Standard? && first ==> !Bit(w, 18))
    ensures var p := WordFields(d, w, 0, ns, first, off, max);
      Fills(d, p.fields, off, p.off, max)
  {
    hide Bit, Place, VendorPart, Ordered, SetBits;
    NoHole(w, 0);
    if ns.Standard? && first {
      PlaceOrdered(d, SetBits(w, 0), off, max);
    }
    NoneOrdered(d, off, max);
    var p := WordPart(w, 0, ns, first, off, max);
    VendorOrdered(d, w, p.off, max);
    FillsConcat(d, p.fields, VendorPart(d, w, p.off, max).fields, off, p.off, max);
  }

  lemma NoneOrdered(d: seq<byte>, lo: nat, max: nat)
    ensures Ordered(d, [], lo, max)
  {
  }

  /** Every field of a layout starts at the first aligned offset behind the field before it, and lies inside
      the header. */
  lemma {:induction false} LayoutOrdered(d: seq<byte>, k: nat, last: nat, off: nat, ns: Namespace, first: bool,
                                         max: nat)
    requires Chain(d, last) && k <= last && max <= |d| && Supported(d, k, last, ns, first)
    ensures Ordered(d, LayoutFrom(d, k, last, off, ns, first, max).fields, off, max)
    decreases last - k
  {
    hide WordFields, Word, Bit, Ordered, NextNamespace, Restarts;
    var w := Word(d, k);
    WordOrdered(d, w, ns, first, off, max);
    var p := WordFields(d, w, 0, ns, first, off, max);
    if p.stop.None? && k < last && p.off <= max {
      LayoutOrdered(d, k + 1, last, p.off, NextNamespace(w, ns), Restarts(w), max);
      var r := LayoutFrom(d, k + 1, last, p.off, NextNamespace(w, ns), Restarts(w), max);
      FillsConcat(d, p.fields, r.fields, off, p.off, max);
    }
  }

  lemma {:induction false} OrderedApart(d: seq<byte>, fields: seq<Field>, lo: nat, max: nat, i: nat, j: nat)
    requires Ordered(d, fields, lo, max) && i <= j < |fields|
    ensures lo <= fields[i].offset && fields[j].offset + fields[j].size <= max && fields[j].size > 0
    ensures i < j ==> fields[i].offset + fields[i].size <= fields[j].offset
    ensures Sized(d, fields[j]) && fields[j].offset % AlignOf(fields[j].index) == 0
    ensures fields[j].offset == AlignUp(End(fields[..j], lo), AlignOf(fields[j].index))
  {
    hide Align, Size, AlignOf, AlignUp;
    var next := fields[0].offset + fields[0].size;
    AlignUpAligned(lo, AlignOf(fields[0].index));
    if i > 0 {
      OrderedApart(d, fields[1..], next, max, i - 1, j - 1);
      EndOfRest(fields, lo, j);
    } else if j > 0 {
      OrderedApart(d, fields[1..], next, max, j - 1, j - 1);
      EndOfRest(fields, lo, j);
    }
  }

  lemma EndOfRest(fields: seq<Field>, lo: nat, j: nat)
    requires 0 < j < |fields|
    ensures End(fields[..j], lo) == End(fields[1..][..j - 1], fields[0].offset + fields[0].size)
  {
    assert j > 1 ==> fields[1..][..j - 1][j - 2] == fields[..j][j - 1];
  }

  /** Fields start behind the presence words, end inside the header, do not overlap, come in the order of their
      offsets, have the size the format says, and leave no gap but what their alignment, relative to the
      header's start, demands. */
  lemma FieldsInHeader(d: seq<byte>, last: nat, max: nat, i: nat, j: nat)
    requires Chain(d, last) && max <= |d| && Supported(d, 0, last, Standard, true)
    requires i <= j < |HeaderLayout(d, last, max).fields|
    ensures var fields := HeaderLayout(d, last, max).fields;
      && 8 + 4 * last <= fields[i].offset && fields[j].offset + fields[j].size <= max && fields[j].size > 0
      && (i < j ==> fields[i].offset + fields[i].size <= fields[j].offset)
      && Sized(d, fields[j]) && fields[j].offset % AlignOf(fields[j].index) == 0
      && fields[j].offset < End(fields[..j], 8 + 4 * last) + AlignOf(fields[j].index)
  {
    hide Ordered, LayoutFrom, Align, Supported, Known;
    LayoutOrdered(d, 0, last, 8 + 4 * last, Standard, true, max);
    OrderedApart(d, HeaderLayout(d, last, max).fields, 8 + 4 * last, max, i, j);
  }
}

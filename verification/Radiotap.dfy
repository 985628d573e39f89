/** The iterator over the fields of a radiotap header. */
module Radiotap {
  import opened Wrappers
  import opened RadiotapLayout
  import RadiotapFields

  // ---------- the layout, one presence bit at a time ----------

  /** The namespace before bit b of a word that starts in namespace ns. */
  function NamespaceAt(w: nat, b: nat, ns: Namespace): Namespace
  {
    if b > VENDOR_NAMESPACE && Bit(w, VENDOR_NAMESPACE) then Foreign
    else if b > RADIOTAP_NAMESPACE && Bit(w, RADIOTAP_NAMESPACE) then Standard
    else ns
  }

  predicate RestartsBefore(w: nat, b: nat)
  {
    || (b > VENDOR_NAMESPACE && Bit(w, VENDOR_NAMESPACE))
    || (b > RADIOTAP_NAMESPACE && Bit(w, RADIOTAP_NAMESPACE))
  }

  function Prepend(f: Field, l: Layout): Layout
  {
    Layout([f] + l.fields, l.end)
  }

  /** The layout from bit b of word k on; ns is the namespace at the word's start. */
  function BitLayout(d: seq<byte>, k: nat, b: nat, last: nat, off: nat, ns: Namespace, first: bool, max: nat): Layout
    requires Chain(d, last) && k <= last && max <= |d| && b <= EXT && Supported(d, k, last, ns, first)
    decreases last - k, EXT - b
  {
    var w := Word(d, k);
    if b == EXT then
      if k == last then Layout([], NoEntry)
      else if off > max then Layout([], Invalid)
      else BitLayout(d, k + 1, 0, last, off, NextNamespace(w, ns), Restarts(w), max)
    else if !Bit(w, b) then BitLayout(d, k, b + 1, last, off, ns, first, max)
    else if b == RADIOTAP_NAMESPACE then
      if off > max then Layout([], Invalid)
      else BitLayout(d, k, b + 1, last, off, ns, first, max)
    else if b == VENDOR_NAMESPACE then
      var v := VendorPart(d, w, off, max);
      if v.stop.Some? then Layout([], v.stop.value)
      else Prepend(v.fields[0], BitLayout(d, k, b + 1, last, v.off, ns, first, max))
    else if ns.Foreign? then BitLayout(d, k, b + 1, last, off, ns, first, max)
    else if !first || b >= N_BITS then Layout([], NoEntry)
    else
      var o, size := AlignUp(off, Align(b)), Size(b);
      if o + size > max then Layout([], Invalid)
      else Prepend(Field(b, o, size), BitLayout(d, k, b + 1, last, o + size, ns, first, max))
  }

  /** A word's part p followed by the layout of the next word. */
  function Continued(d: seq<byte>, k: nat, last: nat, p: Placed, ns: Namespace, first: bool, max: nat): Layout
    requires Chain(d, last) && k <= last && max <= |d| && Supported(d, k, last, ns, first)
  {
    var w := Word(d, k);
    if p.stop.Some? then Layout(p.fields, p.stop.value)
    else if k == last then Layout(p.fields, NoEntry)
    else if p.off > max then Layout(p.fields, Invalid)
    else
      var r := BitLayout(d, k + 1, 0, last, p.off, NextNamespace(w, ns), Restarts(w), max);
      Layout(p.fields + r.fields, r.end)
  }

  lemma AtExt(d: seq<byte>, k: nat, last: nat, off: nat, ns: Namespace, first: bool, max: nat)
    requires Chain(d, last) && k <= last && max <= |d| && Supported(d, k, last, ns, first)
    ensures BitLayout(d, k, EXT, last, off, ns, first, max)
         == Continued(d, k, last, Placed([], off, None), ns, first, max)
  {
    hide Bit, Word, Supported, NextNamespace, Restarts, VendorPart, Align, Size;
  }

  lemma ContinuedPrepend(d: seq<byte>, k: nat, last: nat, f: Field, p: Placed, ns: Namespace, first: bool, max: nat)
    requires Chain(d, last) && k <= last && max <= |d| && Supported(d, k, last, ns, first)
    ensures Continued(d, k, last, p.(fields := [f] + p.fields), ns, first, max)
         == Prepend(f, Continued(d, k, last, p, ns, first, max))
  {
    hide BitLayout, Bit, Word, NextNamespace, Restarts;
    if p.stop.None? && k < last && p.off <= max {
      var r := BitLayout(d, k + 1, 0, last, p.off, NextNamespace(Word(d, k), ns), Restarts(Word(d, k)), max);
      assert [f] + p.fields + r.fields == [f] + (p.fields + r.fields);
    }
  }

  lemma AtVendor(d: seq<byte>, k: nat, last: nat, off: nat, ns: Namespace, first: bool, max: nat)
    requires Chain(d, last) && k <= last && max <= |d| && Supported(d, k, last, ns, first)
    ensures BitLayout(d, k, VENDOR_NAMESPACE, last, off, ns, first, max)
         == Continued(d, k, last, VendorPart(d, Word(d, k), off, max), ns, first, max)
  {
    hide Bit, Word, Supported, Continued, NextNamespace, Restarts, Le16, Align, Size;
    var v := VendorPart(d, Word(d, k), off, max);
    AtExt(d, k, last, v.off, ns, first, max);
    if v.fields != [] {
      ContinuedPrepend(d, k, last, v.fields[0], Placed([], v.off, None), ns, first, max);
      assert [v.fields[0]] + [] == v.fields;
    }
    Stopped(d, k, last, v, ns, first, max);
  }

  lemma Stopped(d: seq<byte>, k: nat, last: nat, p: Placed, ns: Namespace, first: bool, max: nat)
    requires Chain(d, last) && k <= last && max <= |d| && Supported(d, k, last, ns, first)
    ensures p.stop.Some? ==> Continued(d, k, last, p, ns, first, max) == Layout(p.fields, p.stop.value)
  {
  }

  lemma AtRadiotap(d: seq<byte>, k: nat, last: nat, off: nat, ns: Namespace, first: bool, max: nat)
    requires Chain(d, last) && k <= last && max <= |d| && Supported(d, k, last, ns, first)
    ensures BitLayout(d, k, RADIOTAP_NAMESPACE, last, off, ns, first, max)
         == Continued(d, k, last, WordFields(d, Word(d, k), RADIOTAP_NAMESPACE, ns, first, off, max), ns, first, max)
  {
    hide Bit, Word, Continued, NextNamespace, Restarts, VendorPart, Align, Size, Place;
    AtVendor(d, k, last, off, ns, first, max);
    Stopped(d, k, last, Placed([], off, Some(Invalid)), ns, first, max);
    var v := VendorPart(d, Word(d, k), off, max);
    assert [] + v.fields == v.fields;
  }

  lemma PlaceFirst(b: nat, bits: seq<nat>, off: nat, max: nat)
    requires 18 !in bits && b != 18
    ensures Place([b] + bits, off, max) ==
      if b >= N_BITS then Placed([], off, Some(NoEntry))
      else if AlignUp(off, Align(b)) + Size(b) > max then Placed([], off, Some(Invalid))
      else
        var r := Place(bits, AlignUp(off, Align(b)) + Size(b), max);
        r.(fields := [Field(b, AlignUp(off, Align(b)), Size(b))] + r.fields)
  {
    assert ([b] + bits)[1..] == bits;
  }

  /** One bit less of a word's fields. */
  lemma WordPartStep(w: nat, b: nat, ns: Namespace, first: bool, off: nat, max: nat)
    requires (ns.Standard? && first ==> !Bit(w, 18)) && b < RADIOTAP_NAMESPACE
    requires ns.Standard? && first ==> 18 !in SetBits(w, b)
    ensures ns.Standard? && first ==> 18 !in SetBits(w, b + 1)
    ensures ns.Foreign? || !Bit(w, b) ==> WordPart(w, b, ns, first, off, max) == WordPart(w, b + 1, ns, first, off, max)
    ensures ns.Standard? && Bit(w, b) && (!first || b >= N_BITS) ==>
      WordPart(w, b, ns, first, off, max) == Placed([], off, Some(NoEntry))
    ensures ns.Standard? && Bit(w, b) && first && b < N_BITS ==>
      b != 18 && WordPart(w, b, ns, first, off, max) ==
      (var o, size := AlignUp(off, Align(b)), Size(b);
       if o + size > max then Placed([], off, Some(Invalid))
       else
         var r := WordPart(w, b + 1, ns, first, o + size, max);
         r.(fields := [Field(b, o, size)] + r.fields))
  {
    hide Bit, Place, Align, Size, AlignUp;
    var bits := SetBits(w, b + 1);
    assert SetBits(w, b) == if Bit(w, b) then [b] + bits else bits by {
      assert [] + bits == bits;
    }
    if ns.Standard? && first {
      assert Bit(w, b) ==> b != 18;
      if Bit(w, b) {
        PlaceFirst(b, bits, off, max);
      }
      if b < N_BITS && Bit(w, b) {
        PlaceNone(AlignUp(off, Align(b)) + Size(b), max);
      }
    }
  }

  lemma PlaceNone(off: nat, max: nat)
    ensures Place([], off, max) == Placed([], off, None)
  {
  }

  lemma RestStep(d: seq<byte>, w: nat, b: nat, ns: Namespace, first: bool, off: nat, max: nat)
    requires max <= |d| && (ns.Standard? && first ==> !Bit(w, 18)) && b < RADIOTAP_NAMESPACE
    ensures ns.Foreign? || !Bit(w, b) ==>
      WordFields(d, w, b, ns, first, off, max) == WordFields(d, w, b + 1, ns, first, off, max)
    ensures ns.Standard? && Bit(w, b) && (!first || b >= N_BITS) ==>
      WordFields(d, w, b, ns, first, off, max) == Placed([], off, Some(NoEntry))
    ensures ns.Standard? && Bit(w, b) && first && b < N_BITS ==>
      b != 18 && WordFields(d, w, b, ns, first, off, max) ==
      (var o, size := AlignUp(off, Align(b)), Size(b);
       if o + size > max then Placed([], off, Some(Invalid))
       else
         var r := WordFields(d, w, b + 1, ns, first, o + size, max);
         r.(fields := [Field(b, o, size)] + r.fields))
  {
    hide Bit, WordPart, SetBits, Align, Size, AlignUp, VendorPart;
    NoHole(w, b);
    NoHole(w, b + 1);
    WordPartStep(w, b, ns, first, off, max);
    if ns.Standard? && Bit(w, b) && first && b < N_BITS {
      var o, size := AlignUp(off, Align(b)), Size(b);
      var p := WordPart(w, b + 1, ns, first, o + size, max);
      var v := VendorPart(d, w, p.off, max);
      assert [Field(b, o, size)] + p.fields + v.fields == [Field(b, o, size)] + (p.fields + v.fields);
    }
  }

  lemma {:induction false} Rest(d: seq<byte>, k: nat, b: nat, last: nat, off: nat, ns: Namespace, first: bool, max: nat)
    requires Chain(d, last) && k <= last && max <= |d| && b <= RADIOTAP_NAMESPACE && Supported(d, k, last, ns, first)
    ensures BitLayout(d, k, b, last, off, ns, first, max)
         == Continued(d, k, last, WordFields(d, Word(d, k), b, ns, first, off, max), ns, first, max)
    decreases RADIOTAP_NAMESPACE - b
  {
    hide Bit, Word, Continued, WordFields, NextNamespace, Restarts, VendorPart, Align, Size, AlignUp;
    if b == RADIOTAP_NAMESPACE {
      AtRadiotap(d, k, last, off, ns, first, max);
    } else {
      var w := Word(d, k);
      RestStep(d, w, b, ns, first, off, max);
      Rest(d, k, b + 1, last, off, ns, first, max);
      Stopped(d, k, last, Placed([], off, Some(NoEntry)), ns, first, max);
      Stopped(d, k, last, Placed([], off, Some(Invalid)), ns, first, max);
      if ns.Standard? && first && Bit(w, b) && b < N_BITS {
        var o, size := AlignUp(off, Align(b)), Size(b);
        Rest(d, k, b + 1, last, o + size, ns, first, max);
        ContinuedPrepend(d, k, last, Field(b, o, size), WordFields(d, w, b + 1, ns, first, o + size, max), ns, first,
                         max);
      }
    }
  }

  /** Reading bit by bit gives the layout. */
  lemma {:induction false} BitByBit(d: seq<byte>, k: nat, last: nat, off: nat, ns: Namespace, first: bool, max: nat)
    requires Chain(d, last) && k <= last && max <= |d| && Supported(d, k, last, ns, first)
    ensures BitLayout(d, k, 0, last, off, ns, first, max) == LayoutFrom(d, k, last, off, ns, first, max)
    decreases last - k
  {
    hide BitLayout, Bit, Word, NextNamespace, Restarts, VendorPart, WordPart;
    Rest(d, k, 0, last, off, ns, first, max);
    var w := Word(d, k);
    var p := WordFields(d, w, 0, ns, first, off, max);
    if p.stop.None? && k < last && p.off <= max {
      BitByBit(d, k + 1, last, p.off, NextNamespace(w, ns), Restarts(w), max);
    }
  }

  /** The presence words lie within the header and its length within what was received. */
  predicate Describes(header: seq<byte>, last: nat)
  {
    && |header| >= 8 && header[0] == 0 && Le16(header, 2) <= |header|
    && Chain(header, last)
    && (last > 0 ==> 8 + 4 * last <= Le16(header, 2))
  }

  lemma ShiftOne(w: nat, b: nat)
    ensures Shifted(w, b + 1) == Shifted(w, b) / 2
  {
  }

  /** One bit of a word: whether it moves on to the next bit, to a field, or to the end. */
  lemma OneBit(d: seq<byte>, k: nat, b: nat, last: nat, off: nat, ns: Namespace, first: bool, max: nat)
    requires Describes(d, last) && max == Le16(d, 2) && k <= last && b < EXT && Supported(d, k, last, ns, first)
    ensures var w := Word(d, k);
      var cur := NamespaceAt(w, b, ns);
      var l := BitLayout(d, k, b, last, off, ns, first, max);
      && max <= |d| && (Bit(w, b) <==> Shifted(w, b) % 2 == 1) && Shifted(w, b + 1) == Shifted(w, b) / 2
      && (!Bit(w, b) || (b < RADIOTAP_NAMESPACE && cur.Foreign?) ==>
        l == BitLayout(d, k, b + 1, last, off, ns, first, max))
      && (!Bit(w, b) || b < RADIOTAP_NAMESPACE ==>
        NamespaceAt(w, b + 1, ns) == cur && RestartsBefore(w, b + 1) == RestartsBefore(w, b))
      && (Bit(w, b) && b == RADIOTAP_NAMESPACE ==>
        && NamespaceAt(w, b + 1, ns) == Standard && RestartsBefore(w, b + 1)
        && l == if off > max then Layout([], Invalid) else BitLayout(d, k, b + 1, last, off, ns, first, max))
      && (Bit(w, b) && b == VENDOR_NAMESPACE ==>
        && NamespaceAt(w, b + 1, ns) == Foreign && RestartsBefore(w, b + 1)
        && var v := VendorPart(d, w, off, max);
          l == if v.stop.Some? then Layout([], v.stop.value)
               else Prepend(v.fields[0], BitLayout(d, k, b + 1, last, v.off, ns, first, max)))
      && (Bit(w, b) && b < RADIOTAP_NAMESPACE && cur.Standard? && (!first || b >= N_BITS) ==> l == Layout([], NoEntry))
      && (Bit(w, b) && b < N_BITS && cur.Standard? && first ==>
        && b != 18
        && var o, size := AlignUp(off, Align(b)), Size(b);
          l == if o + size > max then Layout([], Invalid)
               else Prepend(Field(b, o, size), BitLayout(d, k, b + 1, last, o + size, ns, first, max)))
  {
    hide Word, AlignUp, Align, Size, VendorPart, Shifted;
    ShiftOne(Word(d, k), b);
  }

  lemma VendorBit(d: seq<byte>, k: nat, last: nat, off: nat, ns: Namespace, first: bool, max: nat)
    requires Describes(d, last) && max == Le16(d, 2) && k <= last && Supported(d, k, last, ns, first)
    requires Shifted(Word(d, k), VENDOR_NAMESPACE) % 2 == 1
    ensures var w := Word(d, k);
      var l := BitLayout(d, k, VENDOR_NAMESPACE, last, off, ns, first, max);
      var o := AlignUp(off, 2);
      && max <= |d| && Shifted(w, EXT) == Shifted(w, VENDOR_NAMESPACE) / 2
      && NamespaceAt(w, EXT, ns) == Foreign && RestartsBefore(w, EXT)
      && (o + 6 > max ==> l == Layout([], Invalid))
      && (o + 6 <= max ==>
        var size := 6 + Le16(d, o + 4);
        l == if o + size > max then Layout([], Invalid)
             else Prepend(Field(VENDOR_NAMESPACE, o, size), BitLayout(d, k, EXT, last, o + size, ns, first, max)))
  {
    hide BitLayout, Shifted, NamespaceAt, RestartsBefore, Bit, Word, Le16, AlignUp, Align, Size;
    OneBit(d, k, VENDOR_NAMESPACE, last, off, ns, first, max);
  }

  lemma FirstBit(ns: Namespace)
    ensures forall w :: Shifted(w, 0) == w
    ensures forall w :: NamespaceAt(w, 0, ns) == ns && !RestartsBefore(w, 0)
  {
  }

  lemma LastBit(d: seq<byte>, k: nat, last: nat, off: nat, ns: Namespace, first: bool, max: nat)
    requires Describes(d, last) && max == Le16(d, 2) && k <= last && Supported(d, k, last, ns, first)
    ensures var w := Word(d, k);
      var l := BitLayout(d, k, EXT, last, off, ns, first, max);
      && (k < last <==> Shifted(w, EXT) % 2 == 1)
      && (k == last ==> l == Layout([], NoEntry))
      && (k < last && off > max ==> l == Layout([], Invalid))
      && (k < last ==> Supported(d, k + 1, last, NamespaceAt(w, EXT, ns), RestartsBefore(w, EXT)))
      && (k < last && off <= max ==>
        l == BitLayout(d, k + 1, 0, last, off, NamespaceAt(w, EXT, ns), RestartsBefore(w, EXT), max))
  {
    hide Word, AlignUp, Align, Size, VendorPart, Shifted;
  }

  // ---------- the iterator ----------

  lemma ChainLeavesHeader(header: seq<byte>, k: nat)
    requires |header| >= 8 && k > 0 && 8 + 4 * k > Le16(header, 2)
    requires forall j: nat :: 0 <= j < k && 8 + 4 * j <= |header| ==> Bit(Word(header, j), EXT)
    ensures !exists n: nat :: Describes(header, n)
  {
    hide Word, Bit, Le16;
    forall n: nat ensures !Describes(header, n) {
      assert n < k && 8 + 4 * n <= |header| ==> Bit(Word(header, n), EXT);
    }
  }

  /** The same said of the bytes of a header. */
  lemma DescribesBytes(header: seq<byte>, last: nat)
    ensures Describes(header, last) <==>
      && |header| >= 8 && header[0] == 0
      && var length := header[2] as nat + 256 * header[3] as nat;
      && length <= |header| && 8 + 4 * last <= |header|
      && (forall k: nat :: k < last ==> RadiotapFields.Extends(header, k)) && !RadiotapFields.Extends(header, last)
      && (last > 0 ==> 8 + 4 * last <= length)
  {
    RadiotapFields.ChainBytes(header, last);
  }

  class Iterator {
    var header: seq<byte>
    var maxLength: nat
    var argIndex: nat
    var bitmapShifter: nat
    var arg: nat
    var resetOnExt: bool
    var nextBitmap: nat
    var currentNamespace: Namespace
    var nextNsData: nat
    var thisArg: nat
    var thisArgIndex: nat
    var thisArgSize: nat
    ghost var word: nat
    ghost var last: nat
    ghost var start: Namespace

    constructor ()
    {
      header := [];
    }

    ghost function Bitno(): nat
      reads this
    {
      argIndex % 32
    }

    ghost predicate Valid()
      reads this
    {
      && Describes(header, last) && maxLength == Le16(header, 2)
      && word <= last && Supported(header, word, last, start, argIndex < 32)
      && nextBitmap == 8 + 4 * word
      && bitmapShifter == Shifted(Word(header, word), Bitno())
      && resetOnExt == RestartsBefore(Word(header, word), Bitno())
      && currentNamespace == NamespaceAt(Word(header, word), Bitno(), start)
      && (currentNamespace.Foreign? ==> nextNsData == arg)
    }

    /** The fields not yet visited, and how the walk will end. */
    ghost function Remaining(): Layout
      reads this
      requires Valid()
    {
      BitLayout(header, word, Bitno(), last, arg, start, argIndex < 32, maxLength)
    }

    /** Moves behind the presence words. */
    method SkipBitmaps() returns (ok: bool, ghost k: nat)
      requires |header| >= 8 && maxLength == Le16(header, 2) <= |header|
      requires arg == 8 && bitmapShifter == Word(header, 0)
      modifies this`arg
      ensures ok ==> arg == 8 + 4 * k && Chain(header, k) && (k > 0 ==> arg <= maxLength)
      ensures !ok ==> forall n: nat :: !Describes(header, n)
    {
      hide Bit, Le32, Le16;
      k := 0;
      if Bit(bitmapShifter, EXT) {
        k := 1;
        if arg + 4 > maxLength {
          ChainLeavesHeader(header, 1);
          return false, k;
        }
        while Bit(Le32(header, arg), EXT)
          invariant arg == 4 + 4 * k && k >= 1 && arg + 4 <= maxLength
          invariant forall j :: 0 <= j < k ==> Bit(Word(header, j), EXT)
          decreases maxLength - arg
        {
          arg := arg + 4;
          k := k + 1;
          if arg + 4 > maxLength {
            ChainLeavesHeader(header, k);
            return false, k;
          }
        }
        arg := arg + 4;
      }
      ok := true;
    }

    method Init(data: seq<byte>) returns (ok: bool)
      modifies this
      ensures ok <==> exists n: nat :: Describes(data, n)
      ensures ok ==> Describes(data, last)
      ensures ok && Supported(data, 0, last, Standard, true) ==>
        Valid() && header == data && Remaining() == HeaderLayout(data, last, Le16(data, 2))
    {
      hide Bit, Le32, Le16, BitLayout, LayoutFrom, Supported, NamespaceAt, RestartsBefore, Shifted;
      if |data| < 8 || data[0] != 0 || |data| < Le16(data, 2) {
        return false;
      }
      header := data;
      maxLength := Le16(data, 2);
      argIndex := 0;
      bitmapShifter := Le32(data, 4);
      arg := 8;
      resetOnExt := false;
      nextBitmap := 8;
      currentNamespace := Standard;
      ghost var k;
      ok, k := SkipBitmaps();
      assert header == data;
      if ok {
        thisArg := arg;
        word, last, start := 0, k, Standard;
        assert Describes(data, last);
        FirstBit(Standard);
        if Supported(data, 0, last, Standard, true) {
          BitByBit(data, 0, last, arg, Standard, true, maxLength);
          assert Valid();
        }
      }
    }

    /** No vendor namespace is registered, so none is found. */
    method FindNs()
      modifies this`currentNamespace
      ensures currentNamespace == Foreign
    {
      currentNamespace := Foreign;
    }

    /** A field's alignment is relative to the start of the header. */
    method SkipPadding(align: nat)
      requires align > 0
      modifies this`arg
      ensures arg == AlignUp(old(arg), align)
    {
      var pad := arg % align;
      if pad != 0 {
        arg := arg + (align - pad);
      }
    }

    /** The last bit of a presence word announces another word. */
    method NextWord()
      requires Valid() && Bitno() == EXT && word < last && arg <= maxLength
      modifies this`word, this`start, this`bitmapShifter, this`nextBitmap, this`argIndex, this`resetOnExt
      ensures Valid() && word == old(word) + 1 && Remaining() == old(Remaining())
    {
      hide BitLayout, Bit, Shifted, NamespaceAt, RestartsBefore, Le32, Le16, Align, Size, Supported;
      LastBit(header, word, last, arg, start, argIndex < 32, maxLength);
      FirstBit(currentNamespace);
      start := currentNamespace;
      word := word + 1;
      bitmapShifter := Le32(header, nextBitmap);
      nextBitmap := nextBitmap + 4;
      argIndex := if resetOnExt then 0 else argIndex + 1;
      resetOnExt := false;
    }

    /** Leaves the current bit behind. */
    method NextEntry()
      modifies this`bitmapShifter, this`argIndex
      ensures bitmapShifter == old(bitmapShifter) / 2 && argIndex == old(argIndex) + 1
    {
      bitmapShifter := bitmapShifter / 2;
      argIndex := argIndex + 1;
    }

    /** Notes the current argument for the caller and moves over it. */
    method Advance(size: nat) returns (ok: bool)
      modifies this`thisArgIndex, this`thisArg, this`thisArgSize, this`arg
      ensures thisArgIndex == argIndex && thisArg == old(arg) && thisArgSize == size
      ensures arg == old(arg) + size && (ok <==> arg <= maxLength)
    {
      thisArgIndex, thisArg, thisArgSize := argIndex, arg, size;
      arg := arg + size;
      ok := arg <= maxLength;
    }

    ghost predicate At(b: nat)
      reads this
    {
      Valid() && Bitno() == b && bitmapShifter % 2 == 1
    }

    /** A bit that announces nothing, or a field of a foreign namespace. */
    method Skip()
      requires Valid() && Bitno() < EXT
      requires bitmapShifter % 2 == 1 ==> currentNamespace.Foreign? && Bitno() < RADIOTAP_NAMESPACE
      modifies this
      ensures header == old(header) && last == old(last) && word == old(word) && Bitno() == old(Bitno()) + 1
      ensures Valid() && Remaining() == old(Remaining())
    {
      hide Describes, Chain, BitLayout, Bit, Shifted, NamespaceAt, RestartsBefore, Word, Le16, Align, Size, AlignUp;
      hide Supported;
      OneBit(header, word, argIndex % 32, last, arg, start, argIndex < 32, maxLength);
      if bitmapShifter % 2 == 1 {
        arg := nextNsData;
        currentNamespace := Foreign;
      }
      NextEntry();
    }

    method RadiotapNamespace() returns (ok: bool)
      requires At(RADIOTAP_NAMESPACE)
      modifies this
      ensures header == old(header) && last == old(last)
      ensures !ok ==> old(Remaining()) == Layout([], Invalid)
      ensures ok ==> word == old(word) && Bitno() == old(Bitno()) + 1 && Valid() && Remaining() == old(Remaining())
    {
      hide Describes, Chain, BitLayout, Bit, Shifted, NamespaceAt, RestartsBefore, Word, Le16, Align, Size, AlignUp;
      hide Supported;
      OneBit(header, word, argIndex % 32, last, arg, start, argIndex < 32, maxLength);
      ok := Advance(0);
      if ok {
        resetOnExt := true;
        currentNamespace := Standard;
        NextEntry();
      }
    }

    /** Six bytes and as many as these announce, all unknown. */
    method VendorSize() returns (ok: bool, size: nat)
      requires maxLength <= |header|
      modifies this`arg, this`currentNamespace, this`nextNsData
      ensures arg == AlignUp(old(arg), 2) && (ok <==> arg + 6 <= maxLength)
      ensures ok ==> size == 6 + Le16(header, arg + 4) && nextNsData == arg + size && currentNamespace == Foreign
    {
      hide AlignUp, Le16;
      SkipPadding(2);
      size := 6;
      if arg + size > maxLength {
        return false, size;
      }
      FindNs();
      var vnslen := Le16(header, arg + 4);
      nextNsData := arg + size + vnslen;
      return true, size + vnslen;
    }

    method VendorNamespace() returns (ok: bool)
      requires At(VENDOR_NAMESPACE)
      modifies this
      ensures header == old(header) && last == old(last)
      ensures !ok ==> old(Remaining()) == Layout([], Invalid)
      ensures ok ==> Valid() && old(Remaining()) == Prepend(Field(thisArgIndex, thisArg, thisArgSize), Remaining())
    {
      hide Describes, Chain, BitLayout, Bit, Shifted, NamespaceAt, RestartsBefore, Word, Le16, Align, Size, AlignUp;
      hide Supported;
      VendorBit(header, word, last, arg, start, argIndex < 32, maxLength);
      var size;
      ok, size := VendorSize();
      if !ok {
        return;
      }
      ok := Advance(size);
      if ok {
        resetOnExt := true;
        thisArgIndex := VENDOR_NAMESPACE;
        NextEntry();
      }
    }

    method Extension() returns (ok: bool)
      requires At(EXT)
      modifies this
      ensures header == old(header) && last == old(last)
      ensures !ok ==> old(Remaining()) == Layout([], Invalid)
      ensures ok ==> word == old(word) + 1 && word <= last && Valid() && Remaining() == old(Remaining())
    {
      hide Describes, Chain, BitLayout, Bit, Shifted, NamespaceAt, RestartsBefore, Word, Le16, Align, Size, AlignUp;
      hide Supported;
      LastBit(header, word, last, arg, start, argIndex < 32, maxLength);
      ok := Advance(0);
      if ok {
        NextWord();
      }
    }

    method Argument() returns (ok: bool)
      requires At(Bitno()) && argIndex < N_BITS && currentNamespace.Standard?
      modifies this
      ensures header == old(header) && last == old(last)
      ensures !ok ==> old(Remaining()) == Layout([], Invalid)
      ensures ok ==> Valid() && old(Remaining()) == Prepend(Field(thisArgIndex, thisArg, thisArgSize), Remaining())
    {
      hide Describes, Chain, BitLayout, Bit, Shifted, NamespaceAt, RestartsBefore, Word, Le16, Align, Size, AlignUp;
      hide Supported;
      OneBit(header, word, argIndex % 32, last, arg, start, argIndex < 32, maxLength);
      SkipPadding(Align(argIndex));
      ok := Advance(Size(argIndex));
      if ok {
        NextEntry();
      }
    }

    /** Moves to the next field; the caller may go on while there is no code. */
    method Next() returns (code: Option<Code>)
      requires Valid()
      modifies this
      ensures header == old(header) && last == old(last)
      ensures code.None? ==>
        Valid() && old(Remaining()) == Prepend(Field(thisArgIndex, thisArg, thisArgSize), Remaining())
      ensures code.Some? ==> old(Remaining()) == Layout([], code.value)
    {
      hide Describes, Chain, BitLayout, Bit, Shifted, NamespaceAt, RestartsBefore, Word, Le16, Align, Size, AlignUp;
      hide Supported;
      while true
        invariant Valid() && header == old(header) && last == old(last)
        invariant Remaining() == old(Remaining())
        decreases last - word, EXT - Bitno()
      {
        var b := argIndex % 32;
        var ok := true;
        if b == EXT && bitmapShifter % 2 == 0 {
          LastBit(header, word, last, arg, start, argIndex < 32, maxLength);
          return Some(NoEntry);
        } else if bitmapShifter % 2 == 0 {
          Skip();
        } else if b == RADIOTAP_NAMESPACE {
          ok := RadiotapNamespace();
        } else if b == EXT {
          ok := Extension();
        } else if b == VENDOR_NAMESPACE {
          ok := VendorNamespace();
          return if ok then None else Some(Invalid);
        } else if currentNamespace.Standard? && argIndex >= N_BITS {
          OneBit(header, word, argIndex % 32, last, arg, start, argIndex < 32, maxLength);
          return Some(NoEntry);
        } else if currentNamespace.Foreign? {
          Skip();
        } else {
          ok := Argument();
          return if ok then None else Some(Invalid);
        }
        if !ok {
          return Some(Invalid);
        }
      }
    }
  }

  lemma WalkIs(header: seq<byte>, last: nat)
    requires Describes(header, last) && Supported(header, 0, last, Standard, true)
    ensures var l := HeaderLayout(header, last, Le16(header, 2));
      && RadiotapFields.Announced(header, l, RadiotapFields.Indices(header, 0, last), 8 + 4 * last, Le16(header, 2))
      && Ordered(header, l.fields, 8 + 4 * last, Le16(header, 2))
  {
    RadiotapFields.HeaderAnnounced(header, last, Le16(header, 2));
    LayoutOrdered(header, 0, last, 8 + 4 * last, Standard, true, Le16(header, 2));
  }

  /** The receiver's loop over a header: all its fields, and how it ended. */
  method Walk(header: seq<byte>) returns (layout: Option<Layout>, ghost last: nat)
    requires forall n: nat :: Describes(header, n) ==> Supported(header, 0, n, Standard, true)
    ensures layout.Some? <==> exists n: nat :: Describes(header, n)
    ensures layout.Some? ==>
      Describes(header, last) && layout.value == HeaderLayout(header, last, Le16(header, 2))
    ensures layout.Some? ==>
      RadiotapFields.Announced(header, layout.value, RadiotapFields.Indices(header, 0, last), 8 + 4 * last,
                               Le16(header, 2))
    ensures layout.Some? ==> Ordered(header, layout.value.fields, 8 + 4 * last, Le16(header, 2))
  {
    hide RadiotapFields.Announced, RadiotapFields.Indices, Ordered;
    hide Describes, BitLayout, Supported, LayoutFrom, Chain;
    var it := new Iterator();
    var ok := it.Init(header);
    last := it.last;
    if !ok {
      return None, last;
    }
    var fields := [];
    ghost var all := it.Remaining();
    var code := it.Next();
    while code.None?
      invariant code.None? ==>
        it.Valid() && it.header == header && it.last == last && all == Layout(
          fields + [Field(it.thisArgIndex, it.thisArg, it.thisArgSize)] + it.Remaining().fields, it.Remaining().end)
      invariant code.Some? ==> all == Layout(fields, code.value)
      decreases if code.None? then |it.Remaining().fields| + 1 else 0
    {
      fields := fields + [Field(it.thisArgIndex, it.thisArg, it.thisArgSize)];
      code := it.Next();
    }
    layout := Some(Layout(fields, code.value));
    WalkIs(header, last);
  }
}

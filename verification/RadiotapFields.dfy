/** Which fields a radiotap header holds, said of its bytes and of the format's own definitions. */
module RadiotapFields {
  import opened Bits
  import opened Wrappers
  import opened RadiotapLayout

  // ---------- bytes and bits ----------

  lemma Le16Bytes(d: seq<byte>, o: nat)
    requires o + 2 <= |d|
    ensures Le16(d, o) % 256 == d[o] && Le16(d, o) / 256 == d[o + 1]
  {
  }

  lemma Le32Bytes(d: seq<byte>, o: nat)
    requires o + 4 <= |d|
    ensures var w := Le32(d, o);
      w % 256 == d[o] && w / 256 % 256 == d[o + 1] && w / 65536 % 256 == d[o + 2] && w / 16777216 == d[o + 3]
  {
    var a, b := d[o] as int + 256 * d[o + 1] as int, d[o + 2] as int + 256 * d[o + 3] as int;
    assert Le32(d, o) == a + 65536 * b;
  }

  lemma ByteBits(x: nat)
    ensures Shifted(x, 0) == x && Shifted(x, 1) == x / 2 && Shifted(x, 2) == x / 4 && Shifted(x, 3) == x / 8
    ensures Shifted(x, 4) == x / 16 && Shifted(x, 5) == x / 32 && Shifted(x, 6) == x / 64 && Shifted(x, 7) == x / 128
    ensures Shifted(x, 8) == x / 256
  {
    assert Shifted(x, 2) == Shifted(x, 1) / 2;
    assert Shifted(x, 3) == Shifted(x, 2) / 2;
    assert Shifted(x, 4) == Shifted(x, 3) / 2;
    assert Shifted(x, 5) == Shifted(x, 4) / 2;
    assert Shifted(x, 6) == Shifted(x, 5) / 2;
    assert Shifted(x, 7) == Shifted(x, 6) / 2;
    assert Shifted(x, 8) == Shifted(x, 7) / 2;
  }

  lemma {:induction false} ShiftedTwice(x: nat, a: nat, b: nat)
    ensures Shifted(x, a + b) == Shifted(Shifted(x, a), b)
  {
    if b > 0 {
      ShiftedTwice(x, a, b - 1);
    }
  }

  /** Bit 8 i + j of a number is bit j of its i-th byte. */
  lemma ByteBit(x: nat, y: nat, j: nat)
    requires j < 8 && x % 256 == y % 256
    ensures Bit(x, j) <==> Bit(y, j)
  {
    LowBit(x, j);
    LowBit(y, j);
  }

  lemma LowBit(x: nat, j: nat)
    requires j < 8
    ensures Bit(x, j) <==> Bit(x % 256, j)
  {
    hide Shifted;
    assert Pow2(8) == 256;
    SameLowBits(x, x % 256, x / 256, 8, j);
  }

  /** Numbers that differ by a multiple of 2^n have the same lowest n bits. */
  lemma {:induction false} SameLowBits(x: nat, y: nat, q: nat, n: nat, j: nat)
    requires j < n && x == y + Pow2(n) * q
    ensures Shifted(x, j) % 2 == Shifted(y, j) % 2
  {
    TwiceProduct(n, q);
    hide Pow2;
    HalfSum(x, y, Pow2(n - 1) * q);
    if j > 0 {
      SameLowBits(x / 2, y / 2, q, n - 1, j - 1);
      ShiftedTwice(x, 1, j - 1);
      ShiftedTwice(y, 1, j - 1);
    }
  }

  lemma TwiceProduct(n: nat, q: nat)
    requires n > 0
    ensures Pow2(n) * q == 2 * (Pow2(n - 1) * q)
  {
  }

  lemma HalfSum(x: nat, y: nat, h: nat)
    requires x == y + 2 * h
    ensures x / 2 == y / 2 + h && x % 2 == y % 2
  {
  }

  lemma {:induction false} ShiftedBytes(x: nat, i: nat)
    requires i < 4
    ensures Shifted(x, 8 * i)
         == if i == 0 then x else if i == 1 then x / 256 else if i == 2 then x / 65536 else x / 16777216
  {
    hide Shifted;
    if i == 0 {
      ByteBits(x);
    } else {
      ShiftedBytes(x, i - 1);
      ShiftedTwice(x, 8 * (i - 1), 8);
      ByteBits(Shifted(x, 8 * (i - 1)));
    }
  }

  /** Presence bits are counted from the lowest bit of the word's first byte; words follow the length field. */
  lemma PresenceBit(d: seq<byte>, k: nat, i: nat, j: nat)
    requires 8 + 4 * k <= |d| && i < 4 && j < 8
    ensures Bit(Word(d, k), 8 * i + j) <==> Bit(d[4 + 4 * k + i], j)
    ensures Bit(d[4 + 4 * k + i], 7) <==> d[4 + 4 * k + i] >= 128
  {
    hide Shifted, Le32;
    var w := Word(d, k);
    Le32Bytes(d, 4 + 4 * k);
    ShiftedBytes(w, i);
    ShiftedTwice(w, 8 * i, j);
    ByteBit(Shifted(w, 8 * i), d[4 + 4 * k + i], j);
    ByteBits(d[4 + 4 * k + i]);
  }

  // ---------- the table ----------

  /** The widths of the members of each field, as the format lists them. */
  function Members(b: nat): seq<nat>
  {
    match b
    case 0 => [8]                                // TSFT: time in microseconds
    case 1 => [1]                                // flags
    case 2 => [1]                                // rate
    case 3 => [2, 2]                             // channel: frequency, flags
    case 4 => [1, 1]                             // FHSS: hop set, hop pattern
    case 5 => [1]                                // signal in dBm
    case 6 => [1]                                // noise in dBm
    case 7 => [2]                                // lock quality
    case 8 => [2]                                // TX attenuation
    case 9 => [2]                                // TX attenuation in dB
    case 10 => [1]                               // TX power in dBm
    case 11 => [1]                               // antenna
    case 12 => [1]                               // signal in dB
    case 13 => [1]                               // noise in dB
    case 14 => [2]                               // RX flags
    case 15 => [2]                               // TX flags
    case 16 => [1]                               // RTS retries
    case 17 => [1]                               // data retries
    case 19 => [1, 1, 1]                         // MCS: known, flags, index
    case 20 => [4, 2, 1, 1]                      // A-MPDU: reference, flags, checksum, reserved
    case 21 => [2, 1, 1, 1, 1, 1, 1, 1, 1, 2]    // VHT: known, flags, bandwidth, users, coding, group, id
    case 22 => [8, 2, 1, 1]                      // timestamp: time, accuracy, unit, flags
    case _ => []
  }

  function Sum(s: seq<nat>): nat
  {
    if s == [] then 0 else s[0] + Sum(s[1..])
  }

  function Widest(s: seq<nat>): nat
  {
    if s == [] then 0 else if s[0] > Widest(s[1..]) then s[0] else Widest(s[1..])
  }

  lemma SumWidest(a: nat, s: seq<nat>)
    ensures Sum([a] + s) == a + Sum(s)
    ensures Widest([a] + s) == if a > Widest(s) then a else Widest(s)
    ensures Sum([]) == 0 && Widest([]) == 0
  {
    assert ([a] + s)[1..] == s;
  }

  lemma SumWidestOfOne(a: nat)
    ensures Sum([a]) == a && Widest([a]) == a
  {
    SumWidest(a, []);
    assert [a] + [] == [a];
  }

  lemma SumWidestOfTwo(a: nat, b: nat)
    ensures Sum([a, b]) == a + b && Widest([a, b]) == if a > b then a else b
  {
    SumWidestOfOne(b);
    SumWidest(a, [b]);
    assert [a] + [b] == [a, b];
  }

  lemma LongFields()
    ensures Sum(Members(19)) == 3 && Widest(Members(19)) == 1
    ensures Sum(Members(20)) == 8 && Widest(Members(20)) == 4
    ensures Sum(Members(22)) == 12 && Widest(Members(22)) == 8
  {
    hide Sum, Widest;
    assert Members(19) == [1] + [1, 1] && Members(20) == [4] + ([2] + [1, 1]) && Members(22) == [8] + ([2] + [1, 1]);
    SumWidestOfTwo(1, 1);
    SumWidest(1, [1, 1]);
    SumWidest(2, [1, 1]);
    SumWidest(4, [2] + [1, 1]);
    SumWidest(8, [2] + [1, 1]);
  }

  lemma LongestField()
    ensures Sum(Members(21)) == 12 && Widest(Members(21)) == 2
  {
    hide Sum, Widest;
    assert Members(21) == [2] + (Ones(8) + [2]);
    OnesThenTwo(8);
    SumWidest(2, Ones(8) + [2]);
  }

  function Ones(n: nat): (s: seq<nat>)
    ensures |s| == n && forall i :: 0 <= i < n ==> s[i] == 1
  {
    if n == 0 then [] else [1] + Ones(n - 1)
  }

  lemma {:induction false} OnesThenTwo(n: nat)
    ensures Sum(Ones(n) + [2]) == n + 2 && Widest(Ones(n) + [2]) == 2
  {
    if n == 0 {
      SumWidestOfOne(2);
      assert Ones(0) + [2] == [2];
    } else {
      OnesThenTwo(n - 1);
      SumWidest(1, Ones(n - 1) + [2]);
      assert Ones(n) + [2] == [1] + (Ones(n - 1) + [2]);
    }
  }

  /** A field is as long as its members together and aligned to the widest of them; the hopping field alone is
      aligned to two bytes. The fields are those below bit 23 that have members. */
  lemma TableOfFields(b: nat)
    ensures Known(b) <==> b < 23 && Members(b) != []
    ensures Known(b) ==> Size(b) == Sum(Members(b))
    ensures Known(b) ==> Align(b) == if b == 4 then 2 else Widest(Members(b))
  {
    hide Sum, Widest;
    LongFields();
    LongestField();
    SumWidestOfOne(1);
    SumWidestOfOne(2);
    SumWidestOfOne(8);
    SumWidestOfTwo(1, 1);
    SumWidestOfTwo(2, 2);
  }

  // ---------- which fields there are ----------

  /** The top bit of the last byte of word k is set. */
  predicate Extends(d: seq<byte>, k: nat)
    requires 8 + 4 * k <= |d|
  {
    d[7 + 4 * k] >= 128
  }

  /** The length of a chain of presence words, said of the bytes. */
  lemma ChainBytes(d: seq<byte>, last: nat)
    ensures Chain(d, last) <==>
      && 8 + 4 * last <= |d|
      && (forall k: nat :: k < last ==> Extends(d, k)) && !Extends(d, last)
  {
    hide Bit;
    if 8 + 4 * last <= |d| {
      forall k: nat | k <= last
        ensures Extends(d, k) <==> Bit(Word(d, k), EXT)
      {
        PresenceBit(d, k, 3, 7);
      }
    }
  }

  /** Word k belongs to the radiotap namespace: the last word before it that names a namespace names that one, and
      no vendor's after it; or none does. */
  predicate InRadiotap(d: seq<byte>, k: nat)
    requires 8 + 4 * k <= |d|
  {
    k == 0 || (!Bit(Word(d, k - 1), 30) && (Bit(Word(d, k - 1), 29) || InRadiotap(d, k - 1)))
  }

  /** Word k is the first one of its namespace. */
  predicate Opens(d: seq<byte>, k: nat)
    requires 8 + 4 * k <= |d|
  {
    k == 0 || Bit(Word(d, k - 1), 29) || Bit(Word(d, k - 1), 30)
  }

  /** The bits before the first one that has no definition. */
  function Defined(bits: seq<nat>): (r: seq<nat>)
    ensures r <= bits && forall i :: 0 <= i < |r| ==> r[i] < 23
    ensures |r| < |bits| ==> bits[|r|] >= 23
  {
    if bits == [] || bits[0] >= 23 then [] else [bits[0]] + Defined(bits[1..])
  }

  /** The walk ends in a word of the radiotap namespace with a field that has no definition: one from bit 23 on, or
      any field in a word that is not the first one of the namespace. */
  predicate Ends(w: nat, radiotap: bool, opens: bool)
  {
    radiotap && SetBits(w, 0) != (if opens then Defined(SetBits(w, 0)) else [])
  }

  /** The fields of the radiotap namespace that a word announces. */
  function OwnIndices(w: nat, radiotap: bool, opens: bool): seq<nat>
  {
    if radiotap && opens then Defined(SetBits(w, 0)) else []
  }

  /** The indices of the fields that the words from k on announce, the vendors' blobs among them. */
  function Indices(d: seq<byte>, k: nat, last: nat): seq<nat>
    requires 8 + 4 * last <= |d| && k <= last
    decreases last - k
  {
    OwnIndices(Word(d, k), InRadiotap(d, k), Opens(d, k)) + FurtherIndices(d, k, last)
  }

  function FurtherIndices(d: seq<byte>, k: nat, last: nat): seq<nat>
    requires 8 + 4 * last <= |d| && k <= last
    decreases last - k, 0
  {
    if Ends(Word(d, k), InRadiotap(d, k), Opens(d, k)) then []
    else (if Bit(Word(d, k), 30) then [30] else []) + if k == last then [] else Indices(d, k + 1, last)
  }

  /** A field with this index does not fit behind off. */
  predicate Beyond(d: seq<byte>, index: nat, off: nat, max: nat)
    requires max <= |d|
  {
    var o := AlignUp(off, AlignOf(index));
    if Known(index) then o + Size(index) > max
    else o + 6 > max || o + 6 + Le16(d, o + 4) > max
  }

  /** The fields are the announced ones; fewer only if the next one does not fit. */
  predicate Announced(d: seq<byte>, l: Layout, indices: seq<nat>, off: nat, max: nat)
    requires max <= |d|
  {
    var n := |l.fields|;
    && n <= |indices|
    && (forall i :: 0 <= i < n ==> l.fields[i].index == indices[i])
    && (l.end.NoEntry? ==> n == |indices|)
    && (l.end.Invalid? ==>
          if n == |indices| then End(l.fields, off) > max else Beyond(d, indices[n], End(l.fields, off), max))
  }

  /** The same of what one word announces, as far as it goes. */
  predicate AnnouncedPart(d: seq<byte>, p: Placed, indices: seq<nat>, off: nat, max: nat)
    requires max <= |d|
  {
    && p.off == End(p.fields, off)
    && (p.stop.None? ==> Announced(d, Layout(p.fields, NoEntry), indices, off, max))
    && (p.stop.Some? ==> Announced(d, Layout(p.fields, p.stop.value), indices, off, max))
  }

  lemma {:induction false} PlaceAnnounced(d: seq<byte>, bits: seq<nat>, off: nat, max: nat)
    requires max <= |d| && 18 !in bits
    ensures AnnouncedPart(d, Place(bits, off, max), Defined(bits), off, max)
    ensures Place(bits, off, max).stop.None? ==> Defined(bits) == bits
    ensures Place(bits, off, max).stop == Some(NoEntry) ==> Defined(bits) != bits
  {
    hide Align, Size, AlignUp, AnnouncedPart;
    NothingAnnounced(d, off, max);
    NothingLeft(d, off, max);
    if bits != [] && bits[0] < 23 {
      var o, size := AlignUp(off, Align(bits[0])), Size(bits[0]);
      assert Defined(bits)[1..] == Defined(bits[1..]);
      if o + size <= max {
        PlaceAnnounced(d, bits[1..], o + size, max);
        Prefixed(d, Field(bits[0], o, size), Place(bits[1..], o + size, max), Defined(bits), off, max);
      } else {
        NoRoom(d, Defined(bits), off, max);
      }
    }
  }

  lemma NoRoom(d: seq<byte>, bits: seq<nat>, off: nat, max: nat)
    requires max <= |d| && bits != [] && Known(bits[0])
    requires AlignUp(off, Align(bits[0])) + Size(bits[0]) > max
    ensures AnnouncedPart(d, Placed([], off, Some(Invalid)), bits, off, max)
  {
  }

  lemma Prefixed(d: seq<byte>, f: Field, r: Placed, indices: seq<nat>, off: nat, max: nat)
    requires max <= |d| && indices != [] && f.index == indices[0]
    requires AnnouncedPart(d, r, indices[1..], f.offset + f.size, max)
    ensures AnnouncedPart(d, r.(fields := [f] + r.fields), indices, off, max)
  {
    hide Beyond;
    var fields := [f] + r.fields;
    assert End(fields, off) == End(r.fields, f.offset + f.size);
    forall i | 0 <= i < |fields| && i < |indices|
      ensures fields[i].index == indices[i]
    {
      assert i > 0 ==> fields[i] == r.fields[i - 1] && indices[i] == indices[1..][i - 1];
    }
    assert |r.fields| < |indices[1..]| ==> indices[1..][|r.fields|] == indices[|fields|];
  }

  /** A word's part followed by what the rest announces. */
  lemma Joined(d: seq<byte>, p: Placed, a: seq<nat>, r: Layout, b: seq<nat>, off: nat, max: nat)
    requires max <= |d| && AnnouncedPart(d, p, a, off, max) && p.stop.None?
    requires Announced(d, r, b, p.off, max)
    ensures Announced(d, Layout(p.fields + r.fields, r.end), a + b, off, max)
  {
    hide Beyond;
    var n := |p.fields|;
    assert End(p.fields + r.fields, off) == End(r.fields, p.off);
    assert |r.fields| < |b| ==> (a + b)[n + |r.fields|] == b[|r.fields|];
  }

  /** A part that ends the layout. */
  lemma Cut(d: seq<byte>, p: Placed, a: seq<nat>, b: seq<nat>, off: nat, max: nat)
    requires max <= |d| && AnnouncedPart(d, p, a, off, max) && p.stop.Some?
    requires p.stop == Some(NoEntry) ==> b == []
    requires b != [] && p.off > max ==> Beyond(d, b[0], p.off, max)
    ensures Announced(d, Layout(p.fields, p.stop.value), a + b, off, max)
  {
    hide Beyond;
    var n := |p.fields|;
    assert b == [] ==> a + b == a;
    assert n < |a| ==> (a + b)[n] == a[n];
    assert n == |a| && b != [] ==> (a + b)[n] == b[0];
  }

  lemma AlwaysBeyond(d: seq<byte>, index: nat, off: nat, max: nat)
    requires max <= |d| && off > max
    ensures Beyond(d, index, off, max)
  {
  }

  lemma VendorAnnounced(d: seq<byte>, w: nat, off: nat, max: nat)
    requires max <= |d|
    ensures AnnouncedPart(d, VendorPart(d, w, off, max), if Bit(w, 30) then [30] else [], off, max)
  {
    hide Bit, Le16, AlignUp;
  }

  /** One word. */
  lemma WordAnnounced(d: seq<byte>, w: nat, ns: Namespace, first: bool, off: nat, max: nat)
    requires max <= |d| && (ns.Standard? && first ==> !Bit(w, 18))
    ensures var p, ends := WordFields(d, w, 0, ns, first, off, max), Ends(w, ns.Standard?, first);
      && AnnouncedPart(d, p, OwnIndices(w, ns.Standard?, first) + (if !ends && Bit(w, 30) then [30] else []), off, max)
      && (p.stop.None? ==> !ends) && (p.stop == Some(NoEntry) ==> ends)
  {
    hide Bit, Place, VendorPart, SetBits, AnnouncedPart, Defined;
    NoHole(w, 0);
    var own, ends := OwnIndices(w, ns.Standard?, first), Ends(w, ns.Standard?, first);
    var p := WordPart(w, 0, ns, first, off, max);
    NothingAnnounced(d, off, max);
    NothingLeft(d, off, max);
    if ns.Standard? && first {
      PlaceAnnounced(d, SetBits(w, 0), off, max);
      NothingDefined();
    }
    assert AnnouncedPart(d, p, own, off, max);
    assert (p.stop.None? ==> !ends) && (p.stop == Some(NoEntry) ==> ends);
    VendorAnnounced(d, w, p.off, max);
    WordJoined(d, w, p, own, ends, off, max);
  }

  lemma NothingDefined()
    ensures Defined([]) == []
  {
  }

  lemma NothingAnnounced(d: seq<byte>, off: nat, max: nat)
    requires max <= |d|
    ensures AnnouncedPart(d, Placed([], off, None), [], off, max)
  {
  }

  lemma NothingLeft(d: seq<byte>, off: nat, max: nat)
    requires max <= |d|
    ensures AnnouncedPart(d, Placed([], off, Some(NoEntry)), [], off, max)
  {
  }

  lemma WordJoined(d: seq<byte>, w: nat, p: Placed, own: seq<nat>, ends: bool, off: nat, max: nat)
    requires max <= |d| && AnnouncedPart(d, p, own, off, max)
    requires AnnouncedPart(d, VendorPart(d, w, p.off, max), if Bit(w, 30) then [30] else [], p.off, max)
    requires (p.stop.None? ==> !ends) && (p.stop == Some(NoEntry) ==> ends)
    ensures var v := VendorPart(d, w, p.off, max);
      var q := if p.stop.Some? then p
               else if Bit(w, RADIOTAP_NAMESPACE) && p.off > max then p.(stop := Some(Invalid))
               else v.(fields := p.fields + v.fields);
      && AnnouncedPart(d, q, own + (if !ends && Bit(w, 30) then [30] else []), off, max)
      && (q.stop.None? ==> !ends) && (q.stop == Some(NoEntry) ==> ends)
  {
    hide Bit, Beyond;
    var v := VendorPart(d, w, p.off, max);
    var more := if !ends && Bit(w, 30) then [30] else [];
    if p.off > max && more != [] {
      AlwaysBeyond(d, more[0], p.off, max);
    }
    if p.stop.Some? {
      StoppedEarly(d, p, own, off, max);
      Cut(d, p, own, more, off, max);
    } else if Bit(w, RADIOTAP_NAMESPACE) && p.off > max {
      var q := p.(stop := Some(Invalid));
      Cut(d, q, own, more, off, max);
    } else {
      var end := if v.stop.Some? then v.stop.value else NoEntry;
      Joined(d, p, own, Layout(v.fields, end), more, off, max);
      assert End(p.fields + v.fields, off) == v.off;
    }
  }

  lemma StoppedEarly(d: seq<byte>, p: Placed, a: seq<nat>, off: nat, max: nat)
    requires max <= |d| && AnnouncedPart(d, p, a, off, max) && p.stop.Some?
    ensures p.off > max ==> forall index: nat :: Beyond(d, index, p.off, max)
  {
    forall index: nat
      ensures p.off > max ==> Beyond(d, index, p.off, max)
    {
      if p.off > max {
        AlwaysBeyond(d, index, p.off, max);
      }
    }
  }

  /** What is left from word k on. */
  lemma {:induction false} LayoutAnnounced(d: seq<byte>, k: nat, last: nat, off: nat, ns: Namespace, max: nat)
    requires Chain(d, last) && k <= last && max <= |d| && Supported(d, k, last, ns, Opens(d, k))
    requires ns.Standard? <==> InRadiotap(d, k)
    ensures Announced(d, LayoutFrom(d, k, last, off, ns, Opens(d, k), max), Indices(d, k, last), off, max)
    decreases last - k
  {
    hide Word, Bit, WordFields, SetBits, Announced, AnnouncedPart, Beyond, Ends, OwnIndices;
    var w := Word(d, k);
    var own, ends := OwnIndices(w, InRadiotap(d, k), Opens(d, k)), Ends(w, InRadiotap(d, k), Opens(d, k));
    var part := own + (if !ends && Bit(w, 30) then [30] else []);
    var rest := if ends || k == last then [] else Indices(d, k + 1, last);
    assert part + rest == Indices(d, k, last);
    WordAnnounced(d, w, ns, Opens(d, k), off, max);
    var p := WordFields(d, w, 0, ns, Opens(d, k), off, max);
    if p.stop.None? && k < last {
      assert Restarts(w) == Opens(d, k + 1) && (NextNamespace(w, ns).Standard? <==> InRadiotap(d, k + 1));
      LayoutAnnounced(d, k + 1, last, p.off, NextNamespace(w, ns), max);
    }
    WordsJoined(d, p, part, rest, k == last,
                if p.stop.None? && k < last
                then LayoutFrom(d, k + 1, last, p.off, NextNamespace(w, ns), Restarts(w), max)
                else Layout([], NoEntry), off, max);
  }

  lemma WordsJoined(d: seq<byte>, p: Placed, a: seq<nat>, b: seq<nat>, done: bool, r: Layout, off: nat, max: nat)
    requires max <= |d| && AnnouncedPart(d, p, a, off, max) && (done || p.stop == Some(NoEntry) ==> b == [])
    requires p.stop.None? && !done ==> Announced(d, r, b, p.off, max)
    ensures Announced(d, if p.stop.Some? then Layout(p.fields, p.stop.value)
                         else if done then Layout(p.fields, NoEntry)
                         else if p.off > max then Layout(p.fields, Invalid)
                         else Layout(p.fields + r.fields, r.end),
                      a + b, off, max)
  {
    hide Beyond;
    if p.off > max && b != [] {
      AlwaysBeyond(d, b[0], p.off, max);
    }
    if p.stop.Some? {
      StoppedEarly(d, p, a, off, max);
      Cut(d, p, a, b, off, max);
    } else if done {
      assert a + b == a;
    } else if p.off > max {
      Cut(d, p.(stop := Some(Invalid)), a, b, off, max);
    } else {
      Joined(d, p, a, r, b, off, max);
    }
  }

  /** The fields of a header are exactly those that its presence words announce, in that order; if there are fewer,
      the next one does not fit. */
  lemma HeaderAnnounced(d: seq<byte>, last: nat, max: nat)
    requires Chain(d, last) && max <= |d| && Supported(d, 0, last, Standard, true)
    ensures Announced(d, HeaderLayout(d, last, max), Indices(d, 0, last), 8 + 4 * last, max)
  {
    hide Word, Bit, SetBits, Announced, LayoutFrom;
    LayoutAnnounced(d, 0, last, 8 + 4 * last, Standard, max);
  }

  // ---------- headers with one presence word ----------

  /** A header with one presence word and only radiotap fields. */
  predicate Plain(d: seq<byte>)
  {
    Chain(d, 0) && !Bit(Word(d, 0), 18) && forall b :: 23 <= b < 31 ==> !Bit(Word(d, 0), b)
  }

  /** If the fields fit, those reported are exactly the set bits below 23, in ascending order. */
  lemma PlainFields(d: seq<byte>, max: nat)
    requires Plain(d) && max <= |d|
    ensures Supported(d, 0, 0, Standard, true)
    ensures HeaderLayout(d, 0, max).end.NoEntry? ==>
      var fields := HeaderLayout(d, 0, max).fields;
      && (forall k: nat :: (exists i :: 0 <= i < |fields| && fields[i].index == k) <==> k < 23 && Bit(Word(d, 0), k))
      && forall i, j :: 0 <= i < j < |fields| ==> fields[i].index < fields[j].index
  {
    hide Word, Bit, LayoutFrom, SetBits, Defined, Beyond;
    var w, l := Word(d, 0), HeaderLayout(d, 0, max);
    HeaderAnnounced(d, 0, max);
    SetBitsExact(w, 0);
    var bits := SetBits(w, 0);
    forall i | 0 <= i < |bits|
      ensures bits[i] < 23
    {
      assert bits[i] in bits;
    }
    AllDefined(bits);
    assert Indices(d, 0, 0) == bits;
    if l.end.NoEntry? {
      SameMembers(l.fields, bits);
    }
  }

  lemma {:induction false} AllDefined(bits: seq<nat>)
    requires forall i :: 0 <= i < |bits| ==> bits[i] < 23
    ensures Defined(bits) == bits
  {
    if bits != [] {
      AllDefined(bits[1..]);
    }
  }

  lemma SameMembers(fields: seq<Field>, bits: seq<nat>)
    requires |fields| == |bits| && forall i :: 0 <= i < |bits| ==> fields[i].index == bits[i]
    ensures forall k: nat :: (exists i :: 0 <= i < |fields| && fields[i].index == k) <==> k in bits
  {
    forall k: nat | k in bits
      ensures exists i :: 0 <= i < |fields| && fields[i].index == k
    {
      var i :| 0 <= i < |bits| && bits[i] == k;
      assert fields[i].index == k;
    }
  }

  /** SetBits from a list. */
  lemma {:induction false} ListedBits(w: nat, b: nat, bits: seq<nat>)
    requires b <= 29 && (forall i :: 0 <= i < |bits| ==> b <= bits[i] < 29)
    requires forall i, j :: 0 <= i < j < |bits| ==> bits[i] < bits[j]
    requires forall k: nat :: b <= k < 29 ==> (Bit(w, k) <==> k in bits)
    ensures SetBits(w, b) == bits
    decreases 29 - b
  {
    hide Bit;
    if b < 29 {
      if bits != [] && bits[0] == b {
        ListedBits(w, b + 1, bits[1..]);
      } else {
        ListedBits(w, b + 1, bits);
      }
    } else {
      assert bits == [];
    }
  }

  lemma PlainLayout(d: seq<byte>, bits: seq<nat>, max: nat)
    requires Plain(d) && max <= |d| && 8 <= max && 18 !in bits
    requires SetBits(Word(d, 0), 0) == bits
    ensures Supported(d, 0, 0, Standard, true)
    ensures var p := Place(bits, 8, max);
      HeaderLayout(d, 0, max) == Layout(p.fields, if p.stop.Some? then p.stop.value else NoEntry)
  {
    hide Word, Bit, SetBits, Place;
    var p := Place(bits, 8, max);
    assert p.fields + [] == p.fields;
    assert bits == [] ==> p == Placed([], 8, None) by { PlaceNothing(8, max); }
  }

  lemma PlaceNothing(off: nat, max: nat)
    ensures Place([], off, max) == Placed([], off, None)
  {
  }

  lemma PlaceNext(b: nat, bits: seq<nat>, off: nat, max: nat)
    requires Known(b) && 18 !in bits && AlignUp(off, Align(b)) + Size(b) <= max
    ensures 18 !in [b] + bits
    ensures var o := AlignUp(off, Align(b)); var r := Place(bits, o + Size(b), max);
      Place([b] + bits, off, max) == r.(fields := [Field(b, o, Size(b))] + r.fields)
  {
    assert ([b] + bits)[1..] == bits;
  }

  /** Where the receiver finds rate, channel, signal and antenna. */
  lemma ReceiverOffsets(d: seq<byte>, max: nat)
    requires Chain(d, 0) && 16 <= max <= |d|
    requires forall b: nat :: b < 31 ==> (Bit(Word(d, 0), b) <==> b in [2, 3, 5, 11])
    ensures Supported(d, 0, 0, Standard, true)
    ensures HeaderLayout(d, 0, max)
         == Layout([Field(2, 8, 1), Field(3, 10, 4), Field(5, 14, 1), Field(11, 15, 1)], NoEntry)
  {
    hide Word, Bit, SetBits, LayoutFrom, Place;
    ListedBits(Word(d, 0), 0, [2, 3, 5, 11]);
    PlainLayout(d, [2, 3, 5, 11], max);
    PlaceReceiver(max);
  }

  lemma PlaceReceiver(max: nat)
    requires 16 <= max
    ensures Place([2, 3, 5, 11], 8, max)
         == Placed([Field(2, 8, 1), Field(3, 10, 4), Field(5, 14, 1), Field(11, 15, 1)], 16, None)
  {
    hide Place;
    PlaceNothing(16, max);
    PlaceNext(11, [], 15, max);
    assert [11] + [] == [11];
    PlaceNext(5, [11], 14, max);
    assert [5] + [11] == [5, 11];
    PlaceNext(3, [5, 11], 9, max);
    assert [3] + [5, 11] == [3, 5, 11];
    PlaceNext(2, [3, 5, 11], 8, max);
    assert [2] + [3, 5, 11] == [2, 3, 5, 11];
  }

  /** The signal lies behind the two members of the channel. */
  lemma SignalBehindChannel(d: seq<byte>, max: nat)
    requires Chain(d, 0) && 13 <= max <= |d|
    requires forall b: nat :: b < 31 ==> (Bit(Word(d, 0), b) <==> b in [3, 5])
    ensures Supported(d, 0, 0, Standard, true)
    ensures HeaderLayout(d, 0, max) == Layout([Field(3, 8, 4), Field(5, 12, 1)], NoEntry)
  {
    hide Word, Bit, SetBits, LayoutFrom, Place;
    ListedBits(Word(d, 0), 0, [3, 5]);
    PlainLayout(d, [3, 5], max);
    PlaceNothing(13, max);
    PlaceNext(5, [], 12, max);
    PlaceNext(3, [5], 8, max);
    assert [5] + [] == [5] && [3] + [5] == [3, 5];
  }
}

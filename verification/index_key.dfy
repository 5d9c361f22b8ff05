/** The order-preserving encoding of index fields: what every index key is made of. */
module IndexKey {
  import opened ByteOrder
  import opened Outcomes

  const TWO63: nat := 0x8000_0000_0000_0000
  const TWO64: nat := 0x1_0000_0000_0000_0000
  const TWO32: nat := 0x1_0000_0000

  type int64 = x: int | -0x8000_0000_0000_0000 <= x < 0x8000_0000_0000_0000
  type uint64 = x: nat | x < 0x1_0000_0000_0000_0000

  /** A reflected field value. F64 carries its bit pattern, Str its UTF-8 bytes;
      Nested stands for the map and enum values, which the encoder rejects alike. */
  datatype Dynamic =
    | Null
    | Bool(b: bool)
    | I64(i: int64)
    | U64(u: uint64)
    | F64(bits: uint64)
    | Str(utf8: Bytes)
    | Blob(bytes: Bytes)
    | Seq(items: seq<Dynamic>)
    | Nested

  const TAG_NULL: Byte := 0x00
  const TAG_FALSE: Byte := 0x01
  const TAG_TRUE: Byte := 0x02
  const TAG_I64_NEG: Byte := 0x10
  const TAG_I64_ZERO: Byte := 0x11
  const TAG_I64_POS: Byte := 0x12
  const TAG_U64: Byte := 0x20
  const TAG_F64: Byte := 0x30
  const TAG_STRING: Byte := 0x40
  const TAG_BYTES: Byte := 0x41
  const COMPOSITE_TAG: Byte := 0x80
  const STRING_TERMINATOR: Byte := 0x00

  lemma WordBounds()
    ensures Pow256(4) == TWO32
    ensures Pow256(8) == TWO64
  {
    assert Pow256(1) == 0x100;
    assert Pow256(2) == 0x1_0000;
    assert Pow256(3) == 0x100_0000;
    assert Pow256(5) == 0x100_0000_0000;
    assert Pow256(6) == 0x1_0000_0000_0000;
    assert Pow256(7) == 0x100_0000_0000_0000;
  }

  function Be64(n: nat): (b: Bytes)
    requires n < TWO64
    ensures |b| == 8
  {
    WordBounds();
    ToBe(n, 8)
  }

  lemma Be64Order(n: nat, m: nat)
    requires n < TWO64 && m < TWO64
    ensures Less(Be64(n), Be64(m)) <==> n < m
    ensures Be64(n) == Be64(m) <==> n == m
  {
    WordBounds();
    ToBeOrder(n, m, 8);
    FromBeOfToBe(n, 8);
    FromBeOfToBe(m, 8);
  }

  /** The bit pattern after the sign-dependent flip that makes IEEE-754 total
      order agree with unsigned order. */
  function FlipF64(bits: uint64): (t: nat)
    ensures t < TWO64
  {
    if bits < TWO63 then bits + TWO63 else TWO64 - 1 - bits
  }

  predicate Encodable(d: Dynamic) {
    match d
    case Str(s) => STRING_TERMINATOR !in s
    case Blob(b) => |b| < TWO32
    case Seq(_) => false
    case Nested => false
    case _ => true
  }

  function EncodeField(d: Dynamic): (r: Result<Bytes>)
    ensures r.Ok? <==> Encodable(d)
    ensures r.Ok? ==> r.value != []
    ensures r.Err? ==> r.error.FromExtraction()
  {
    match d
    case Null => Ok([TAG_NULL])
    case Bool(b) => Ok([if b then TAG_TRUE else TAG_FALSE])
    case I64(i) =>
      if i == 0 then Ok([TAG_I64_ZERO])
      else Ok([if i < 0 then TAG_I64_NEG else TAG_I64_POS] + Be64(i + TWO63))
    case U64(u) => Ok([TAG_U64] + Be64(u))
    case F64(bits) => Ok([TAG_F64] + Be64(FlipF64(bits)))
    case Str(s) =>
      if STRING_TERMINATOR in s then Err(InvalidArgument)
      else Ok([TAG_STRING] + s + [STRING_TERMINATOR])
    case Blob(b) =>
      if |b| >= TWO32 then Err(InvalidArgument)
      else (WordBounds(); Ok([TAG_BYTES] + ToBe(|b|, 4) + b))
    case Seq(_) => Err(InvalidArgument)
    case Nested => Err(InvalidArgument)
  }

  function Enc(d: Dynamic): (b: Bytes)
    requires Encodable(d)
    ensures b != []
  {
    EncodeField(d).value
  }

  /** IEEE-754 total order: negatives by descending magnitude, then positives. */
  predicate TotalLess(x: uint64, y: uint64) {
    if x >= TWO63 && y >= TWO63 then y < x
    else if x >= TWO63 then true
    else if y >= TWO63 then false
    else x < y
  }

  /** Shorter first, equal lengths lexicographically. */
  predicate ShortLess(a: Bytes, b: Bytes) {
    |a| < |b| || (|a| == |b| && Less(a, b))
  }

  function Rank(d: Dynamic): nat {
    match d
    case Null => 0
    case Bool(b) => if b then 2 else 1
    case I64(_) => 3
    case U64(_) => 4
    case F64(_) => 5
    case Str(_) => 6
    case Blob(_) => 7
    case Seq(_) => 8
    case Nested => 9
  }

  /** The order index scans actually follow: by type first, then by value,
      with byte strings compared by length before content. */
  predicate FieldLess(a: Dynamic, b: Dynamic) {
    Rank(a) < Rank(b) ||
    match (a, b)
    case (I64(i), I64(j)) => i < j
    case (U64(i), U64(j)) => i < j
    case (F64(x), F64(y)) => TotalLess(x, y)
    case (Str(s), Str(t)) => Less(s, t)
    case (Blob(s), Blob(t)) => ShortLess(s, t)
    case _ => false
  }

  lemma {:induction false} TerminatedPrefix(s: Bytes, t: Bytes)
    requires STRING_TERMINATOR !in s && STRING_TERMINATOR !in t
    requires s + [STRING_TERMINATOR] <= t + [STRING_TERMINATOR]
    ensures s == t
  {
    var u, v := s + [STRING_TERMINATOR], t + [STRING_TERMINATOR];
    assert forall i | 0 <= i < |u| :: v[i] == u[i];
    assert v[|s|] == u[|s|] == STRING_TERMINATOR;
    assert forall i | 0 <= i < |s| :: u[i] == s[i] && v[i] == t[i];
  }

  lemma {:induction false} TerminatedOrder(s: Bytes, t: Bytes)
    requires STRING_TERMINATOR !in s && STRING_TERMINATOR !in t
    ensures Less(s + [STRING_TERMINATOR], t + [STRING_TERMINATOR]) <==> Less(s, t)
  {
    var u, v := s + [STRING_TERMINATOR], t + [STRING_TERMINATOR];
    if s == [] {
      assert u == [STRING_TERMINATOR];
      if t != [] { assert v[0] == t[0] && t[0] in t; }
    } else if t == [] {
      assert v == [STRING_TERMINATOR] && u[0] == s[0] && s[0] in s;
    } else {
      assert u[1..] == s[1..] + [STRING_TERMINATOR] && v[1..] == t[1..] + [STRING_TERMINATOR];
      TerminatedOrder(s[1..], t[1..]);
    }
  }

  lemma LengthPrefixedOrder(s: Bytes, t: Bytes)
    requires |s| < Pow256(4) && |t| < Pow256(4)
    ensures Less(ToBe(|s|, 4) + s, ToBe(|t|, 4) + t) <==> ShortLess(s, t)
    ensures ToBe(|s|, 4) + s <= ToBe(|t|, 4) + t ==> s == t
  {
    var p, q := ToBe(|s|, 4), ToBe(|t|, 4);
    FromBeOfToBe(|s|, 4);
    FromBeOfToBe(|t|, 4);
    if p == q {
      LessCommonPrefix(p, s, t);
    } else {
      LessDiverging(p, s, q, t);
      ToBeOrder(|s|, |t|, 4);
      assert (p + s)[..4] == p && (q + t)[..4] == q;
    }
    if p + s <= q + t {
      assert (p + s)[..4] == p && (q + t)[..4] == q;
      assert s == (p + s)[4..] && t == (q + t)[4..];
    }
  }

  /** The tag byte and what follows it. */
  function Tag(d: Dynamic): Byte
    requires Encodable(d)
  {
    Enc(d)[0]
  }

  /** Encodings under different tags part at the first byte. */
  lemma TagsApart(a: Dynamic, b: Dynamic)
    requires Encodable(a) && Encodable(b) && Tag(a) != Tag(b)
    ensures Less(Enc(a), Enc(b)) <==> FieldLess(a, b)
    ensures !(Enc(a) <= Enc(b))
  {}

  lemma WordOrder(t: Byte, n: nat, m: nat)
    requires n < TWO64 && m < TWO64
    ensures Less([t] + Be64(n), [t] + Be64(m)) <==> n < m
  {
    Be64Order(n, m);
    LessCommonPrefix([t], Be64(n), Be64(m));
  }

  lemma StrOrder(s: Bytes, t: Bytes)
    requires Encodable(Str(s)) && Encodable(Str(t))
    ensures Less(Enc(Str(s)), Enc(Str(t))) <==> Less(s, t)
  {
    var u, v := s + [STRING_TERMINATOR], t + [STRING_TERMINATOR];
    assert Enc(Str(s)) == [TAG_STRING] + u && Enc(Str(t)) == [TAG_STRING] + v;
    TerminatedOrder(s, t);
    LessCommonPrefix([TAG_STRING], u, v);
  }

  lemma BlobOrder(s: Bytes, t: Bytes)
    requires Encodable(Blob(s)) && Encodable(Blob(t))
    ensures Less(Enc(Blob(s)), Enc(Blob(t))) <==> ShortLess(s, t)
  {
    WordBounds();
    var u, v := ToBe(|s|, 4) + s, ToBe(|t|, 4) + t;
    assert Enc(Blob(s)) == [TAG_BYTES] + u && Enc(Blob(t)) == [TAG_BYTES] + v;
    LengthPrefixedOrder(s, t);
    LessCommonPrefix([TAG_BYTES], u, v);
  }

  lemma SameTagOrder(a: Dynamic, b: Dynamic)
    requires Encodable(a) && Encodable(b) && Tag(a) == Tag(b)
    ensures Less(Enc(a), Enc(b)) <==> FieldLess(a, b)
  {
    LessIrreflexive(Enc(a));
    match (a, b) {
      case (I64(i), I64(j)) => if i != 0 { WordOrder(Tag(a), i + TWO63, j + TWO63); }
      case (U64(i), U64(j)) => WordOrder(TAG_U64, i, j);
      case (F64(x), F64(y)) => WordOrder(TAG_F64, FlipF64(x), FlipF64(y));
      case (Str(s), Str(t)) => StrOrder(s, t);
      case (Blob(s), Blob(t)) => BlobOrder(s, t);
      case _ =>
    }
  }

  /** The encoding contract: byte order of encodings is value order. */
  lemma EncOrder(a: Dynamic, b: Dynamic)
    requires Encodable(a) && Encodable(b)
    ensures Less(Enc(a), Enc(b)) <==> FieldLess(a, b)
  {
    if Tag(a) == Tag(b) {
      SameTagOrder(a, b);
    } else {
      TagsApart(a, b);
    }
  }

  lemma StrPrefix(s: Bytes, t: Bytes)
    requires Encodable(Str(s)) && Encodable(Str(t)) && Enc(Str(s)) <= Enc(Str(t))
    ensures s == t
  {
    assert Enc(Str(s))[1..] == s + [STRING_TERMINATOR] && Enc(Str(t))[1..] == t + [STRING_TERMINATOR];
    TerminatedPrefix(s, t);
  }

  lemma BlobPrefix(s: Bytes, t: Bytes)
    requires Encodable(Blob(s)) && Encodable(Blob(t)) && Enc(Blob(s)) <= Enc(Blob(t))
    ensures s == t
  {
    WordBounds();
    assert Enc(Blob(s))[1..] == ToBe(|s|, 4) + s && Enc(Blob(t))[1..] == ToBe(|t|, 4) + t;
    LengthPrefixedOrder(s, t);
  }

  /** No encoding is a prefix of another value's: keys are self-delimiting. */
  lemma EncPrefixFree(a: Dynamic, b: Dynamic)
    requires Encodable(a) && Encodable(b)
    requires Enc(a) <= Enc(b)
    ensures a == b
  {
    if Tag(a) != Tag(b) {
      TagsApart(a, b);
      assert false;
    }
    WordBounds();
    match (a, b) {
      case (I64(i), I64(j)) =>
        if i != 0 {
          assert Enc(a)[1..] == Be64(i + TWO63) && Enc(b)[1..] == Be64(j + TWO63);
          Be64Order(i + TWO63, j + TWO63);
        }
      case (U64(i), U64(j)) =>
        assert Enc(a)[1..] == Be64(i) && Enc(b)[1..] == Be64(j);
        Be64Order(i, j);
      case (F64(x), F64(y)) =>
        assert Enc(a)[1..] == Be64(FlipF64(x)) && Enc(b)[1..] == Be64(FlipF64(y));
        Be64Order(FlipF64(x), FlipF64(y));
      case (Str(s), Str(t)) => StrPrefix(s, t);
      case (Blob(s), Blob(t)) => BlobPrefix(s, t);
      case _ =>
    }
  }

  /** The module documentation promises the natural order of byte strings. A set
      of values of the lengths in `lengths` gets it exactly when at most one
      non-zero length occurs. */
  ghost predicate NaturalOrderOn(lengths: set<nat>) {
    forall s: Bytes, t: Bytes | |s| in lengths && |t| in lengths ::
      Encodable(Blob(s)) && Encodable(Blob(t)) ==>
        (Less(Enc(Blob(s)), Enc(Blob(t))) <==> Less(s, t))
  }

  function Fill(b: Byte, n: nat): (s: Bytes)
    ensures |s| == n && forall i | 0 <= i < n :: s[i] == b
  {
    seq(n, _ => b)
  }

  lemma BlobNaturalOrder(lengths: set<nat>)
    requires forall n | n in lengths :: n < TWO32
    ensures NaturalOrderOn(lengths) <==> forall m, n | m in lengths && n in lengths :: m == 0 || n == 0 || m == n
  {
    if NaturalOrderOn(lengths) {
      forall m, n | m in lengths && n in lengths ensures m == 0 || n == 0 || m == n {
        if 0 < m < n {
          BlobCounterexample(m, n);
        } else if 0 < n < m {
          BlobCounterexample(n, m);
        }
      }
    }
    if forall m, n | m in lengths && n in lengths :: m == 0 || n == 0 || m == n {
      forall s: Bytes, t: Bytes | |s| in lengths && |t| in lengths && Encodable(Blob(s)) && Encodable(Blob(t))
        ensures Less(Enc(Blob(s)), Enc(Blob(t))) <==> Less(s, t)
      {
        BlobOrder(s, t);
      }
    }
  }

  /** m bytes 0xFF are encoded before n > m zero bytes, although they sort after them. */
  lemma BlobCounterexample(m: nat, n: nat)
    requires 0 < m < n < TWO32
    ensures Less(Enc(Blob(Fill(255, m))), Enc(Blob(Fill(0, n))))
    ensures !Less(Fill(255, m), Fill(0, n))
  {
    BlobOrder(Fill(255, m), Fill(0, n));
  }

  // ---- Keys of several fields ----

  predicate AllEncodable(fs: seq<Dynamic>) {
    forall f | f in fs :: Encodable(f)
  }

  function EncodeFields(fs: seq<Dynamic>): (r: Result<Bytes>)
    ensures r.Ok? <==> AllEncodable(fs)
    ensures r.Err? ==> r.error.FromExtraction()
  {
    if fs == [] then Ok([]) else
    assert AllEncodable(fs) <==> Encodable(fs[0]) && AllEncodable(fs[1..]) by {
      assert forall f :: f in fs <==> f == fs[0] || f in fs[1..];
    }
    var head :- EncodeField(fs[0]);
    var rest :- EncodeFields(fs[1..]);
    Ok(head + rest)
  }

  lemma {:induction false} EncodeFieldsFails(fs: seq<Dynamic>)
    ensures EncodeFields(fs).Err? ==> EncodeFields(fs).error == InvalidArgument
  {
    if fs != [] { EncodeFieldsFails(fs[1..]); }
  }

  /** The encodings of several fields follow one another. */
  lemma {:induction false} EncodeFieldsSnoc(fs: seq<Dynamic>, d: Dynamic)
    requires AllEncodable(fs) && Encodable(d)
    ensures AllEncodable(fs + [d])
    ensures EncodeFields(fs + [d]).value == EncodeFields(fs).value + Enc(d)
  {
    if fs == [] {
      assert fs + [d] == [d] && [d][1..] == [];
    } else {
      assert (fs + [d])[1..] == fs[1..] + [d];
      EncodeFieldsSnoc(fs[1..], d);
      assert EncodeFields(fs + [d]).value == Enc(fs[0]) + (EncodeFields(fs[1..]).value + Enc(d));
    }
  }

  datatype IndexKind = Standard | Unique | Each | Composite

  /** One index key from its field values; the caller supplies one value per key path. */
  function EncodeKey(kind: IndexKind, paths: nat, fs: seq<Dynamic>): (r: Result<Bytes>)
    ensures r.Err? ==> r.error.FromExtraction()
  {
    if |fs| != paths then Err(InvalidArgument)
    else if kind.Composite? then
      if |fs| < 2 then Err(InvalidArgument) else
      var body :- EncodeFields(fs);
      Ok([COMPOSITE_TAG] + body)
    else if |fs| != 1 then Err(InvalidArgument)
    else EncodeField(fs[0])
  }

  /** Field-by-field order of equally long value tuples. */
  predicate TupleLess(fs: seq<Dynamic>, gs: seq<Dynamic>) {
    fs != [] && gs != [] &&
    (FieldLess(fs[0], gs[0]) || (fs[0] == gs[0] && TupleLess(fs[1..], gs[1..])))
  }

  lemma PrefixesComparable(a: Bytes, x: Bytes, b: Bytes, y: Bytes)
    requires a + x <= b + y
    ensures a <= b || b <= a
  {
    var u, v := a + x, b + y;
    assert forall i | 0 <= i < |u| :: u[i] == v[i];
    if |a| <= |b| {
      assert forall i | 0 <= i < |a| :: u[i] == a[i] && v[i] == b[i];
    } else {
      assert forall i | 0 <= i < |b| :: u[i] == a[i] && v[i] == b[i];
    }
  }

  /** Concatenations of equally many self-delimiting codes are again
      self-delimiting and ordered field by field. */
  lemma {:induction false} EncodeFieldsOrder(fs: seq<Dynamic>, gs: seq<Dynamic>)
    requires |fs| == |gs| && AllEncodable(fs) && AllEncodable(gs)
    ensures EncodeFields(fs).value <= EncodeFields(gs).value ==> fs == gs
    ensures Less(EncodeFields(fs).value, EncodeFields(gs).value) <==> TupleLess(fs, gs)
  {
    if fs != [] {
      var a, x := Enc(fs[0]), EncodeFields(fs[1..]).value;
      var b, y := Enc(gs[0]), EncodeFields(gs[1..]).value;
      EncodeFieldsOrder(fs[1..], gs[1..]);
      EncOrder(fs[0], gs[0]);
      if fs[0] == gs[0] {
        LessCommonPrefix(a, x, y);
        LessIrreflexive(a);
        if a + x <= a + y {
          assert x == (a + x)[|a|..] && y == (a + y)[|a|..];
          assert fs == [fs[0]] + fs[1..] && gs == [gs[0]] + gs[1..];
        }
      } else {
        if a <= b { EncPrefixFree(fs[0], gs[0]); }
        if b <= a { EncPrefixFree(gs[0], fs[0]); }
        LessDiverging(a, x, b, y);
        if a + x <= b + y { PrefixesComparable(a, x, b, y); }
      }
    }
  }

  /** Among the keys of one index: no key is a prefix of another value's key,
      and byte order is the field-by-field value order. */
  lemma EncodeKeyOrder(kind: IndexKind, paths: nat, fs: seq<Dynamic>, gs: seq<Dynamic>)
    requires EncodeKey(kind, paths, fs).Ok? && EncodeKey(kind, paths, gs).Ok?
    ensures EncodeKey(kind, paths, fs).value <= EncodeKey(kind, paths, gs).value ==> fs == gs
    ensures Less(EncodeKey(kind, paths, fs).value, EncodeKey(kind, paths, gs).value) <==> TupleLess(fs, gs)
  {
    if kind.Composite? {
      EncodeFieldsOrder(fs, gs);
      var a, b := EncodeFields(fs).value, EncodeFields(gs).value;
      LessCommonPrefix([COMPOSITE_TAG], a, b);
      if [COMPOSITE_TAG] + a <= [COMPOSITE_TAG] + b {
        assert a == ([COMPOSITE_TAG] + a)[1..] && b == ([COMPOSITE_TAG] + b)[1..];
      }
    } else {
      EncOrder(fs[0], gs[0]);
      if Enc(fs[0]) <= Enc(gs[0]) { EncPrefixFree(fs[0], gs[0]); }
      assert fs == [fs[0]] && gs == [gs[0]];
    }
  }
}

/**
 Tagged integers (types.h): widths, the four tag bytes and the big-endian value bytes of a stored
 number, and the way a load classifies what it finds.
 */
module Numbers {
  import opened Words

  datatype Kind = Bool | Char | UChar | Short | UShort | Int | UInt | Long | ULong | LongLong | ULongLong

  datatype Status = UNDEFINED | UNINITIALIZED | DEFINED

  function Rank(s: Status): nat {
    match s
    case UNDEFINED => 0
    case UNINITIALIZED => 1
    case DEFINED => 2
  }

  function MinStatus(a: Status, b: Status): Status {
    if Rank(a) <= Rank(b) then a else b
  }

  const ZERO_ID: nat := 0x0000_0000
  const INVALID_ID: nat := 0x0101_0101
  const FUNC_ID: nat := 0x0202_0202
  const STRUCT_ID: nat := 0x0404_0404
  const STACKPOS_ID: nat := 0x0505_0505
  const INT_ID: nat := 0x4343_4343
  const PTR_ID: nat := 0x6060_6060

  /** `id | EMU_TYPE_UNINIT_MASK`: no tag has any of the mask's bits. */
  function Uninit(id: nat): nat {
    id + 0x8080_8080
  }

  function Bits(k: Kind): nat {
    match k
    case Bool => 1
    case Char | UChar => 8
    case Short | UShort => 16
    case Int | UInt | Long | ULong => 32
    case LongLong | ULongLong => 64
  }

  function Bytes(k: Kind): nat {
    (Bits(k) + 7) / 8
  }

  /** 2 to the power `Bits(k)` */
  function Modulus(k: Kind): (m: nat)
    ensures m > 0
  {
    match k
    case Bool => 2
    case Char | UChar => 0x100
    case Short | UShort => 0x1_0000
    case Int | UInt | Long | ULong => 0x1_0000_0000
    case LongLong | ULongLong => 0x1_0000_0000_0000_0000
  }

  function Id(k: Kind): nat {
    match k
    case Bool => 0x4040_4040
    case Char | UChar => 0x4141_4141
    case Short | UShort => 0x4242_4242
    case Int | UInt => INT_ID
    case Long | ULong => 0x4444_4444
    case LongLong | ULongLong => 0x4545_4545
  }

  predicate Signed(k: Kind) {
    k.Char? || k.Short? || k.Int? || k.Long? || k.LongLong?
  }

  /** `val` is a bit pattern of `Bits(kind)` bits; `tag` is the stored type id. */
  datatype Num = Num(kind: Kind, status: Status, val: nat, tag: nat)

  predicate NumOk(n: Num) {
    n.val < Modulus(n.kind) && n.tag < Pow256(4)
  }

  function NumSize(k: Kind): nat {
    4 + Bytes(k)
  }

  lemma {:induction false} BytesOfKind(k: Kind)
    ensures Pow256(4) == 0x1_0000_0000 && Modulus(k) <= Pow256(Bytes(k)) && Bytes(k) > 0
    ensures k != Bool ==> Modulus(k) == Pow256(Bytes(k)) && Bits(k) == 8 * Bytes(k)
  {
    assert Pow256(1) == 0x100;
    assert Pow256(2) == 0x1_0000;
    assert Pow256(4) == 0x100 * (0x100 * Pow256(2));
    assert Pow256(8) == 0x100 * (0x100 * (0x100 * (0x100 * Pow256(4))));
  }

  // ----- Store -----

  function UninitBytes(k: Kind): (b: seq<byte>)
    ensures |b| == NumSize(k)
  {
    Le(Uninit(Id(k)), 4) + seq(Bytes(k), _ => 1)
  }

  /** `dump_repr` */
  function EncodeNum(n: Num): (b: seq<byte>)
    ensures |b| == NumSize(n.kind)
  {
    if n.status == UNINITIALIZED then UninitBytes(n.kind) else Le(n.tag, 4) + Be(n.val, Bytes(n.kind))
  }

  // ----- Load -----

  function ValueOf(k: Kind, b: seq<byte>): nat
    requires |b| == Bytes(k)
  {
    if k == Bool then b[0] % 2 else FromBe(b)
  }

  /** How a load that knows the tag `known` classifies a stored tag and value. */
  function Classify(known: nat, tag: nat, v: nat): Status {
    if tag == Uninit(known) then UNINITIALIZED
    else if tag == known || (tag == ZERO_ID && v == 0) then DEFINED
    else UNDEFINED
  }

  /** The loading constructor; as written, `known` is the tag of `int` for every kind. */
  function LoadNumAs(k: Kind, known: nat, b: seq<byte>): Num
    requires |b| == NumSize(k)
  {
    var tag, v := FromLe(b[..4]), ValueOf(k, b[4..]);
    Num(k, Classify(known, tag, v), v, tag)
  }

  /** The loading constructor, with each kind recognised by its own tag. */
  function LoadNum(k: Kind, b: seq<byte>): Num
    requires |b| == NumSize(k)
  {
    LoadNumAs(k, Id(k), b)
  }

  lemma {:induction false} ValueBound(k: Kind, b: seq<byte>)
    requires |b| == Bytes(k)
    ensures ValueOf(k, b) < Modulus(k)
  {
    BytesOfKind(k);
    BeBytes(b);
  }

  lemma {:induction false} StoredValue(k: Kind, b: seq<byte>)
    requires |b| == Bytes(k)
    ensures Be(ValueOf(k, b), Bytes(k)) == b <==> (k == Bool ==> b[0] < 2)
  {
    BeBytes(b);
    if k == Bool {
      assert Be(b[0] % 2, 0) == [];
      assert Be(b[0] % 2, 1) == [b[0] % 2];
      assert b == [b[0]];
    }
  }

  /**
   Storing what was just loaded, whatever tag the load knows: the bytes come back exactly unless the
   number loaded as uninitialised (it is then stored in one canonical form) or a bool byte was not 0 or 1.
   */
  lemma {:induction false} StoreAfterLoad(k: Kind, known: nat, b: seq<byte>)
    requires |b| == NumSize(k)
    ensures EncodeNum(LoadNumAs(k, known, b)) == b <==>
            b == UninitBytes(k) || (LoadNumAs(k, known, b).status != UNINITIALIZED && (k == Bool ==> b[4] < 2))
  {
    var n := LoadNumAs(k, known, b);
    BytesOfKind(k);
    LeBytes(b[..4]);
    StoredValue(k, b[4..]);
    assert b == b[..4] + b[4..];
    if n.status != UNINITIALIZED {
      var e := EncodeNum(n);
      assert e[..4] == Le(n.tag, 4) && e[4..] == Be(n.val, Bytes(k));
      if k == Bool && b == UninitBytes(k) {
        assert b[4] == 1;
      }
    }
  }

  /** Storing, loading and storing again changes nothing more. */
  lemma {:induction false} StoreLoadIdempotent(k: Kind, known: nat, b: seq<byte>)
    requires |b| == NumSize(k)
    ensures var c := EncodeNum(LoadNumAs(k, known, b)); EncodeNum(LoadNumAs(k, known, c)) == c
  {
    var n := LoadNumAs(k, known, b);
    var c := EncodeNum(n);
    StoreAfterLoad(k, known, c);
    if n.status != UNINITIALIZED {
      LeBytes(b[..4]);
      BytesOfKind(k);
      ValueBound(k, b[4..]);
      BeWord(n.val, Bytes(k));
      assert c[..4] == b[..4] && c[4..] == Be(n.val, Bytes(k));
      if k == Bool {
        assert Be(n.val, 0) == [];
        assert c[4] == n.val;
        assert FromBe(c[4..]) == n.val;
      }
    }
  }

  /** The tag is that of the number's kind, or it is the zero tag and so is the value. */
  predicate Recognised(n: Num) {
    n.tag == Id(n.kind) || (n.tag == ZERO_ID && n.val == 0)
  }

  /** A defined number comes back as it was stored exactly when its tag is recognised; each kind knows its own. */
  lemma {:induction false} LoadAfterStore(n: Num)
    requires NumOk(n) && n.status == DEFINED
    ensures LoadNum(n.kind, EncodeNum(n)) == n <==> Recognised(n)
  {
    LoadStored(n);
  }

  lemma {:induction false} LoadStored(n: Num)
    requires NumOk(n) && n.status != UNINITIALIZED
    ensures var b := EncodeNum(n); FromLe(b[..4]) == n.tag && ValueOf(n.kind, b[4..]) == n.val
  {
    var b := EncodeNum(n);
    BytesOfKind(n.kind);
    LeWord(n.tag, 4);
    BeWord(n.val, Bytes(n.kind));
    assert b[..4] == Le(n.tag, 4) && b[4..] == Be(n.val, Bytes(n.kind));
    if n.kind == Bool {
      assert Be(n.val, 0) == [];
      assert b[4..][0] == n.val;
    }
  }

  /**
   What any number loads as, wherever it was stored: an uninitialised one as uninitialised, whatever its
   bits were; any other by its tag.
   */
  lemma {:induction false} StoredStatus(n: Num)
    requires NumOk(n)
    ensures LoadNum(n.kind, EncodeNum(n)).status ==
            if n.status == UNINITIALIZED || n.tag == Id(n.kind) + 0x8080_8080 then UNINITIALIZED
            else if Recognised(n) then DEFINED
            else UNDEFINED
  {
    hide FromLe, ValueOf, Be;
    StoredTag(n);
    if n.status != UNINITIALIZED {
      LoadStored(n);
    }
  }

  lemma {:induction false} StoredTag(n: Num)
    requires NumOk(n)
    ensures FromLe(EncodeNum(n)[..4]) == if n.status == UNINITIALIZED then Uninit(Id(n.kind)) else n.tag
  {
    hide FromLe, Le, Be;
    var tag := if n.status == UNINITIALIZED then Uninit(Id(n.kind)) else n.tag;
    BytesOfKind(n.kind);
    LeWord(tag, 4);
    assert EncodeNum(n)[..4] == Le(tag, 4);
  }

  /** As written, the load recognises only the tag of `int`, and the zero tag: it must be one of these. */
  lemma {:induction false} LoadAfterStoreAsWritten(n: Num)
    requires NumOk(n) && n.status == DEFINED
    ensures LoadNumAs(n.kind, INT_ID, EncodeNum(n)) == n <==> n.tag == INT_ID || (n.tag == ZERO_ID && n.val == 0)
    ensures n.tag == Id(n.kind) ==>
              (LoadNumAs(n.kind, INT_ID, EncodeNum(n)) == n <==> n.kind == Int || n.kind == UInt)
  {
    LoadStored(n);
  }

  // ----- The loops -----

  /** The value loop of the loading constructor; `at` is the place of the first value byte. */
  method DecodeValue(k: Kind, buf: array<byte>, at: nat) returns (v: nat)
    requires at + Bytes(k) <= buf.Length
    ensures v == ValueOf(k, buf[at..at + Bytes(k)])
  {
    BytesOfKind(k);
    var bitsleft, i := Bits(k), 0;
    v := 0;
    while bitsleft > 0
      invariant i <= Bytes(k) && (k != Bool ==> bitsleft == 8 * (Bytes(k) - i) && v == FromBe(buf[at..at + i]))
      invariant k == Bool ==> if i == 0 then bitsleft == 1 && v == 0 else bitsleft == 0 && v == buf[at] % 2
    {
      var nextbyte: nat := buf[at + i];
      if bitsleft < 8 {
        assert Pow2(1) == 2;
        nextbyte := nextbyte % Pow2(bitsleft);
        bitsleft := 0;
      } else {
        bitsleft := bitsleft - 8;
      }
      assert buf[at..at + i + 1][..i] == buf[at..at + i];
      v := 0x100 * v + nextbyte;
      i := i + 1;
    }
  }

  /** The value loop of `dump_repr`. */
  method EncodeValue(val: nat, vbytes: nat, buf: array<byte>, at: nat)
    requires at + vbytes <= buf.Length
    modifies buf
    ensures buf[..] == old(buf[..at]) + Be(val, vbytes) + old(buf[at + vbytes..])
  {
    var t, i := val, 0;
    assert buf[at..at + vbytes] + buf[at + vbytes..] == buf[at..];
    while i < vbytes
      invariant i <= vbytes && Be(t, vbytes - i) + buf[at + vbytes - i..at + vbytes] == Be(val, vbytes)
      invariant buf[..at] == old(buf[..at]) && buf[at + vbytes..] == old(buf[at + vbytes..])
    {
      var place := at + vbytes - i - 1;
      ghost var tail := buf[place + 1..at + vbytes];
      buf[place] := t % 0x100;
      assert buf[place + 1..at + vbytes] == tail;
      assert buf[place..at + vbytes] == [buf[place]] + buf[place + 1..at + vbytes];
      t := t / 0x100;
      i := i + 1;
    }
    assert buf[..at + vbytes] == buf[..at] + buf[at..at + vbytes];
    assert buf[..] == buf[..at + vbytes] + buf[at + vbytes..];
  }
}

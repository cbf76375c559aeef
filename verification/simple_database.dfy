/** SimpleDataBase.java: a single-file store of fixed 16-byte records, a
    4-byte big-endian id followed by the UTF-8 name cut or zero-padded to 12
    bytes. The file is a byte sequence here; a Java `int` is its 32-bit
    pattern (`bv32`) and a Java `byte` its 8-bit pattern (`bv8`), with the
    sign of either read off the top bit where the code depends on it. */
module SimpleDataBase {
  import opened Wrappers

  type Byte = bv8
  type Int32 = bv32

  const RecordSize: nat := 16
  const IdSize: nat := 4
  const NameSize: nat := 12

  /** `intToBytes`: the four bytes of `v`, most significant first, from
      which the corrected decoding gets `v` back. */
  function IntToBytes(v: Int32): (r: seq<Byte>)
    ensures |r| == IdSize
    ensures BytesToIntMasked(r) == v
  {
    [((v >> 24) & 0xFF) as Byte, ((v >> 16) & 0xFF) as Byte, ((v >> 8) & 0xFF) as Byte, (v & 0xFF) as Byte]
  }

  /** Java's widening of a `byte` to an `int`: the top bit is copied into
      the upper 24 bits. */
  function SignExtend(b: Byte): (r: Int32)
    ensures r & 0xFF == b as Int32
    ensures b < 0x80 ==> r < 0x80
    ensures 0x80 <= b ==> r & 0xFFFF_FF00 == 0xFFFF_FF00
  {
    if b < 0x80 then b as Int32 else b as Int32 | 0xFFFF_FF00
  }

  /** `bytesToInt` as written: the four bytes are widened with their sign
      before they are shifted and OR-ed together. */
  function BytesToInt(b: seq<Byte>): (r: Int32)
    requires |b| == IdSize
    ensures r & 0xFF == b[3] as Int32
    ensures 0x80 <= b[3] ==> r & 0xFFFF_FF00 == 0xFFFF_FF00
    ensures b[1] < 0x80 && b[2] < 0x80 && b[3] < 0x80 ==> r == BytesToIntMasked(b)
  {
    (SignExtend(b[0]) << 24) | (SignExtend(b[1]) << 16) | (SignExtend(b[2]) << 8) | SignExtend(b[3])
  }

  /** `bytesToInt` corrected: each byte is masked to 0..255 before it is
      shifted, so that it contributes exactly its own eight bits. */
  function BytesToIntMasked(b: seq<Byte>): (r: Int32)
    requires |b| == IdSize
    ensures (r >> 24) as Byte == b[0] && ((r >> 16) & 0xFF) as Byte == b[1]
    ensures ((r >> 8) & 0xFF) as Byte == b[2] && (r & 0xFF) as Byte == b[3]
  {
    (b[0] as Int32 << 24) | (b[1] as Int32 << 16) | (b[2] as Int32 << 8) | b[3] as Int32
  }

  /** The values the code's own checks use: each encodes to the bytes shown
      and decodes back to itself under the reading as written. */
  lemma CodecExamples()
    ensures IntToBytes(0x1234_5678) == [0x12, 0x34, 0x56, 0x78] && BytesToInt([0x12, 0x34, 0x56, 0x78]) == 0x1234_5678
    ensures IntToBytes(127) == [0, 0, 0, 127] && BytesToInt([0, 0, 0, 127]) == 127
    ensures IntToBytes(256) == [0, 0, 1, 0] && BytesToInt([0, 0, 1, 0]) == 256
  {
  }

  /** The corrected decoding inverts the encoding on every 32-bit value. */
  lemma MaskedRoundTrip(v: Int32)
    ensures BytesToIntMasked(IntToBytes(v)) == v
  {
  }

  /** The corrected decoding is injective as well: four bytes are recovered
      from the value they decode to. */
  lemma MaskedInverse(b: seq<Byte>)
    requires |b| == IdSize
    ensures IntToBytes(BytesToIntMasked(b)) == b
  {
  }

  /** What sign extension adds: the decoding as written is the corrected
      one with the bits above every byte of 0x80 or more forced to one. */
  lemma AsWrittenSpill(b: seq<Byte>)
    requires |b| == IdSize
    ensures BytesToInt(b) ==
              BytesToIntMasked(b)
              | (if 0x80 <= b[1] then 0xFF00_0000 else 0)
              | (if 0x80 <= b[2] then 0xFFFF_0000 else 0)
              | (if 0x80 <= b[3] then 0xFFFF_FF00 else 0)
  {
  }

  /** The bytes of `v` read back as masks of its bits. */
  lemma ByteIsFF(v: Int32)
    ensures var b := IntToBytes(v);
            && (b[0] == 0xFF <==> v & 0xFF00_0000 == 0xFF00_0000)
            && (b[1] == 0xFF <==> v & 0x00FF_0000 == 0x00FF_0000)
            && (b[2] == 0xFF <==> v & 0x0000_FF00 == 0x0000_FF00)
  {
  }

  /** OR-ing ones into the top two bytes leaves `v` alone exactly when
      both are already 0xFF. */
  lemma OrTwoBytes(v: Int32)
    ensures v | 0xFFFF_0000 == v <==> v & 0xFF00_0000 == 0xFF00_0000 && v & 0x00FF_0000 == 0x00FF_0000
  {
  }

  /** OR-ing ones into the top byte leaves `v` alone exactly when it is
      already 0xFF. */
  lemma OrOneByte(v: Int32)
    ensures v | 0xFF00_0000 == v <==> v & 0xFF00_0000 == 0xFF00_0000
  {
  }

  /** The last byte of `v` is 0x80 or more: it spills ones over the upper
      three bytes, which is harmless only when they are all 0xFF. */
  lemma SpillFromByte3(v: Int32)
    requires 0x80 <= IntToBytes(v)[3]
    ensures var b := IntToBytes(v);
            BytesToInt(b) == v <==> b[0] == 0xFF && b[1] == 0xFF && b[2] == 0xFF
  {
    AsWrittenSpill(IntToBytes(v));
    MaskedRoundTrip(v);
    ByteIsFF(v);
    assert BytesToInt(IntToBytes(v)) == v | 0xFFFF_FF00;
  }

  /** Byte 2 of `v` is 0x80 or more and byte 3 is not. */
  lemma SpillFromByte2(v: Int32)
    requires IntToBytes(v)[3] < 0x80 <= IntToBytes(v)[2]
    ensures var b := IntToBytes(v);
            BytesToInt(b) == v <==> b[0] == 0xFF && b[1] == 0xFF
  {
    var b := IntToBytes(v);
    AsWrittenSpill(b);
    MaskedRoundTrip(v);
    assert BytesToInt(b) == v | 0xFFFF_0000;
    ByteIsFF(v);
    OrTwoBytes(v);
  }

  /** Byte 1 of `v` is 0x80 or more and bytes 2 and 3 are not. */
  lemma SpillFromByte1(v: Int32)
    requires IntToBytes(v)[3] < 0x80 && IntToBytes(v)[2] < 0x80 <= IntToBytes(v)[1]
    ensures var b := IntToBytes(v);
            BytesToInt(b) == v <==> b[0] == 0xFF
  {
    var b := IntToBytes(v);
    AsWrittenSpill(b);
    MaskedRoundTrip(v);
    assert BytesToInt(b) == v | 0xFF00_0000;
    ByteIsFF(v);
    OrOneByte(v);
  }

  /** Bytes 1 to 3 of `v` are all below 0x80: nothing spills. */
  lemma NoSpill(v: Int32)
    requires IntToBytes(v)[3] < 0x80 && IntToBytes(v)[2] < 0x80 && IntToBytes(v)[1] < 0x80
    ensures BytesToInt(IntToBytes(v)) == v
  {
    AsWrittenSpill(IntToBytes(v));
    MaskedRoundTrip(v);
  }

  /** The decoding as written inverts the encoding exactly when every byte
      at or above 0x80 in positions 1 to 3 is preceded only by 0xFF bytes:
      a sign-extended byte then ORs ones only into bits that are already
      set. For non-negative values that means bytes 1 to 3 stay below 0x80. */
  lemma AsWrittenRoundTrip(v: Int32)
    ensures var b := IntToBytes(v);
            BytesToInt(b) == v <==>
              && (0x80 <= b[1] ==> b[0] == 0xFF)
              && (0x80 <= b[2] ==> b[0] == 0xFF && b[1] == 0xFF)
              && (0x80 <= b[3] ==> b[0] == 0xFF && b[1] == 0xFF && b[2] == 0xFF)
  {
    var b := IntToBytes(v);
    if 0x80 <= b[3] {
      SpillFromByte3(v);
    } else if 0x80 <= b[2] {
      SpillFromByte2(v);
    } else if 0x80 <= b[1] {
      SpillFromByte1(v);
    } else {
      NoSpill(v);
    }
  }

  /** The two readings of an id field: the code as written and the
      corrected one. Every lookup below is parameterised by the reading. */
  datatype Decoder = SignExtended | Masked

  function Decode(d: Decoder, b: seq<Byte>): Int32
    requires |b| == IdSize
  {
    match d
    case SignExtended => BytesToInt(b)
    case Masked => BytesToIntMasked(b)
  }

  /** The corrected reading of an id field gives back the id that was
      written there. */
  lemma DecodeMaskedEncoded(v: Int32)
    ensures Decode(Masked, IntToBytes(v)) == v
  {
    MaskedRoundTrip(v);
  }

  /** `Arrays.copyOf(nameBytes, 12)`: the name cut to 12 bytes or padded with
      zero bytes up to 12. */
  function Pad(name: seq<Byte>): (r: seq<Byte>)
    ensures |r| == NameSize
    ensures forall i :: 0 <= i < NameSize ==> r[i] == if i < |name| then name[i] else 0
  {
    if |name| >= NameSize then name[..NameSize] else name + Zeros(NameSize - |name|)
  }

  function Zeros(n: nat): (r: seq<Byte>)
    ensures |r| == n && forall i :: 0 <= i < n ==> r[i] == 0
  {
    seq(n, _ => 0)
  }

  /** The 16 bytes `insert` writes for one user: an id field the corrected
      decoding reads back as `id`, then the name's first 12 bytes, zeros
      after a shorter name. */
  function Record(id: Int32, name: seq<Byte>): (r: seq<Byte>)
    ensures |r| == RecordSize
    ensures r[..IdSize] == IntToBytes(id) && BytesToIntMasked(r[..IdSize]) == id
    ensures forall i :: 0 <= i < NameSize ==> r[IdSize + i] == if i < |name| then name[i] else 0
  {
    IntToBytes(id) + Pad(name)
  }

  /** `insert`: the record is appended to the end of the file, which keeps
      every byte it had. */
  function Insert(file: seq<Byte>, id: Int32, name: seq<Byte>): (r: seq<Byte>)
    ensures |r| == |file| + RecordSize && r[..|file|] == file
    ensures r[|file|..] == Record(id, name)
  {
    file + Record(id, name)
  }

  /** `stripTrailingZeros`: the input up to and including its last nonzero
      byte. */
  function StripTrailingZeros(a: seq<Byte>): (r: seq<Byte>)
    ensures r <= a
    ensures |r| == 0 || r[|r| - 1] != 0
    ensures forall i :: |r| <= i < |a| ==> a[i] == 0
    decreases |a|
  {
    if |a| == 0 || a[|a| - 1] != 0 then a else StripTrailingZeros(a[..|a| - 1])
  }

  /** The three facts of `StripTrailingZeros` pin its result down: a prefix
      of `a` that does not end in zero and is followed only by zeros is the
      stripped input. */
  lemma {:induction false} StripUnique(a: seq<Byte>, p: seq<Byte>)
    requires p <= a
    requires |p| == 0 || p[|p| - 1] != 0
    requires forall i :: |p| <= i < |a| ==> a[i] == 0
    ensures StripTrailingZeros(a) == p
    decreases |a|
  {
    if |a| != |p| {
      assert a[|a| - 1] == 0;
      StripUnique(a[..|a| - 1], p);
    }
  }

  /** Stripping twice strips nothing more. */
  lemma StripIdempotent(a: seq<Byte>)
    ensures StripTrailingZeros(StripTrailingZeros(a)) == StripTrailingZeros(a)
  {
    var r := StripTrailingZeros(a);
    StripUnique(r, r);
  }

  /** A name whose first 12 bytes contain no zero byte reads back as those
      bytes: the whole name when it fits, its first 12 bytes otherwise. */
  lemma NameRoundTrip(name: seq<Byte>)
    requires forall i :: 0 <= i < |name| && i < NameSize ==> name[i] != 0
    ensures StripTrailingZeros(Pad(name)) == if |name| <= NameSize then name else name[..NameSize]
  {
    var p := if |name| <= NameSize then name else name[..NameSize];
    StripUnique(Pad(name), p);
  }

  /** The number of whole records in a file; `selectBinarySearch` takes the
      file length divided by 16. */
  function Count(file: seq<Byte>): nat
  {
    |file| / RecordSize
  }

  /** The 16 bytes of record `j`. */
  function RecordAt(file: seq<Byte>, j: nat): (r: seq<Byte>)
    requires j < Count(file)
    ensures |r| == RecordSize
  {
    file[j * RecordSize..j * RecordSize + RecordSize]
  }

  /** The id of record `j`, as the decoder reads it. */
  function IdAt(d: Decoder, file: seq<Byte>, j: nat): Int32
    requires j < Count(file)
  {
    Decode(d, RecordAt(file, j)[..IdSize])
  }

  /** The name of record `j`, trailing zeros stripped. */
  function NameAt(file: seq<Byte>, j: nat): seq<Byte>
    requires j < Count(file)
  {
    StripTrailingZeros(RecordAt(file, j)[IdSize..])
  }

  /** The user record: an id and the name's bytes. */
  datatype User = User(id: Int32, name: seq<Byte>)

  /** The user of the first record at index `k` or later whose id reads as
      `q`, or `None` when there is none. */
  function LookupFrom(d: Decoder, file: seq<Byte>, q: Int32, k: nat): Option<User>
    requires k <= Count(file)
    decreases Count(file) - k
  {
    if k == Count(file) then None
    else if IdAt(d, file, k) == q then Some(User(q, NameAt(file, k)))
    else LookupFrom(d, file, q, k + 1)
  }

  /** `select`: the first record of the file with id `q`. */
  function Lookup(d: Decoder, file: seq<Byte>, q: Int32): Option<User>
  {
    LookupFrom(d, file, q, 0)
  }

  /** What `select` returns: `null` exactly when no record's id reads as
      `q`, and otherwise the user of the first record whose id does. */
  lemma {:induction false} LookupFromFirstMatch(d: Decoder, file: seq<Byte>, q: Int32, k: nat)
    requires k <= Count(file)
    ensures LookupFrom(d, file, q, k).None? <==> forall j :: k <= j < Count(file) ==> IdAt(d, file, j) != q
    ensures LookupFrom(d, file, q, k).Some? ==>
              exists j :: k <= j < Count(file) && FirstHit(d, file, q, k, j)
                          && LookupFrom(d, file, q, k).value == User(q, NameAt(file, j))
    decreases Count(file) - k
  {
    if k < Count(file) {
      if IdAt(d, file, k) == q {
        assert FirstHit(d, file, q, k, k);
      } else {
        LookupFromFirstMatch(d, file, q, k + 1);
        if LookupFrom(d, file, q, k + 1).Some? {
          var j :| k + 1 <= j < Count(file) && FirstHit(d, file, q, k + 1, j)
                   && LookupFrom(d, file, q, k + 1).value == User(q, NameAt(file, j));
          assert FirstHit(d, file, q, k, j);
        }
      }
    }
  }

  /** Record `j` is the first record at index `k` or later whose id reads
      as `q`. */
  predicate FirstHit(d: Decoder, file: seq<Byte>, q: Int32, k: nat, j: nat)
    requires k <= j < Count(file)
  {
    IdAt(d, file, j) == q && forall i :: k <= i < j ==> IdAt(d, file, i) != q
  }

  /** `LookupFromFirstMatch` for the whole file. */
  lemma LookupFirstMatch(d: Decoder, file: seq<Byte>, q: Int32)
    ensures Lookup(d, file, q).None? <==> forall j :: 0 <= j < Count(file) ==> IdAt(d, file, j) != q
    ensures Lookup(d, file, q).Some? ==>
              exists j :: 0 <= j < Count(file) && FirstHit(d, file, q, 0, j)
                          && Lookup(d, file, q).value == User(q, NameAt(file, j))
  {
    LookupFromFirstMatch(d, file, q, 0);
  }

  /** `select`, one record at a time, as the code reads the file. */
  method Select(d: Decoder, file: seq<Byte>, q: Int32) returns (r: Option<User>)
    ensures r == Lookup(d, file, q)
  {
    var k := 0;
    while k < Count(file)
      invariant k <= Count(file)
      invariant LookupFrom(d, file, q, k) == Lookup(d, file, q)
      decreases Count(file) - k
    {
      var id := IdAt(d, file, k);
      if id == q {
        return Some(User(id, NameAt(file, k)));
      }
      k := k + 1;
    }
    return None;
  }

  /** A file that extends another holds the same records at the same
      places: appending leaves the records already in the file as they
      were. */
  lemma PrefixKeepsRecords(file: seq<Byte>, f: seq<Byte>, j: nat)
    requires file <= f && j < Count(file)
    ensures j < Count(f) && RecordAt(f, j) == RecordAt(file, j)
  {
    assert j * RecordSize + RecordSize <= |file|;
  }

  /** Appended to a file of whole records, the new record is the last
      record of the new file and holds what was written. */
  lemma InsertAddsRecord(file: seq<Byte>, id: Int32, name: seq<Byte>)
    requires |file| % RecordSize == 0
    ensures Count(Insert(file, id, name)) == Count(file) + 1
    ensures RecordAt(Insert(file, id, name), Count(file)) == Record(id, name)
  {
    assert Count(file) * RecordSize == |file|;
  }

  /** `select` after `insert`: an earlier record with id `q` still wins;
      otherwise the new record is found exactly when its id field reads as
      `q`. */
  lemma LookupAfterInsert(d: Decoder, file: seq<Byte>, id: Int32, name: seq<Byte>, q: Int32)
    requires |file| % RecordSize == 0
    ensures Lookup(d, Insert(file, id, name), q) ==
              if Lookup(d, file, q).Some? then Lookup(d, file, q)
              else if Decode(d, IntToBytes(id)) == q then Some(User(q, StripTrailingZeros(Pad(name))))
              else None
  {
    InsertAddsRecord(file, id, name);
    LookupFromExtended(d, file, Insert(file, id, name), q, 0);
  }

  /** Lookups over a file and an extension of it agree on a hit among the
      records they share; on a miss there the extension goes on to its own
      records. */
  lemma {:induction false} LookupFromExtended(d: Decoder, file: seq<Byte>, f: seq<Byte>, q: Int32, k: nat)
    requires file <= f && k <= Count(file)
    ensures Count(file) <= Count(f)
    ensures LookupFrom(d, f, q, k) ==
              if LookupFrom(d, file, q, k).Some? then LookupFrom(d, file, q, k)
              else LookupFrom(d, f, q, Count(file))
    decreases Count(file) - k
  {
    if k < Count(file) {
      LookupFromExtended(d, file, f, q, k + 1);
      LookupFromExtendedStep(d, file, f, q, k);
    } else {
      assert LookupFrom(d, file, q, k).None?;
    }
  }

  /** One step of `LookupFromExtended`: from record `k + 1` back to `k`. */
  lemma LookupFromExtendedStep(d: Decoder, file: seq<Byte>, f: seq<Byte>, q: Int32, k: nat)
    requires file <= f && k < Count(file) <= Count(f)
    requires LookupFrom(d, f, q, k + 1) ==
               if LookupFrom(d, file, q, k + 1).Some? then LookupFrom(d, file, q, k + 1)
               else LookupFrom(d, f, q, Count(file))
    ensures LookupFrom(d, f, q, k) ==
              if LookupFrom(d, file, q, k).Some? then LookupFrom(d, file, q, k)
              else LookupFrom(d, f, q, Count(file))
  {
    PrefixKeepsRecords(file, f, k);
    LookupSharedRecord(d, file, f, q, k);
    FirstHitWins(LookupFrom(d, file, q, k), LookupFrom(d, file, q, k + 1),
                 LookupFrom(d, f, q, k), LookupFrom(d, f, q, k + 1), LookupFrom(d, f, q, Count(file)));
  }

  /** The step of `LookupFromExtended`, on the lookups' results alone. */
  lemma FirstHitWins(a: Option<User>, a': Option<User>, b: Option<User>, b': Option<User>, tail: Option<User>)
    requires (a.Some? && b == a) || (a == a' && b == b')
    requires b' == if a'.Some? then a' else tail
    ensures b == if a.Some? then a else tail
  {
  }

  /** One step of two lookups over files that agree on record `k`: both
      stop there with the same user, or both move on. */
  lemma LookupSharedRecord(d: Decoder, file: seq<Byte>, f: seq<Byte>, q: Int32, k: nat)
    requires k < Count(file) && k < Count(f) && RecordAt(f, k) == RecordAt(file, k)
    ensures || (LookupFrom(d, file, q, k).Some? && LookupFrom(d, f, q, k) == LookupFrom(d, file, q, k))
            || (LookupFrom(d, file, q, k) == LookupFrom(d, file, q, k + 1) && LookupFrom(d, f, q, k) == LookupFrom(d, f, q, k + 1))
  {
  }

  /** With the corrected reading, a user just inserted is found: the first
      record with that id, and the new one when there was none before. */
  lemma InsertThenSelect(file: seq<Byte>, id: Int32, name: seq<Byte>)
    requires |file| % RecordSize == 0
    ensures var r := Lookup(Masked, Insert(file, id, name), id);
            r.Some? && r.value.id == id
            && (Lookup(Masked, file, id).None? ==> r.value.name == StripTrailingZeros(Pad(name)))
  {
    DecodeMaskedEncoded(id);
    LookupAfterInsert(Masked, file, id, name, id);
    LookupFirstMatch(Masked, file, id);
  }

  /** The code as written reads id 200, stored as 00 00 00 C8, back as -56:
      `select(200)` right after `insert(200, name)` on an empty file finds
      nothing. */
  lemma AsWrittenMisses200(name: seq<Byte>)
    ensures Lookup(SignExtended, Insert([], 200, name), 200) == None
  {
    assert IntToBytes(200) == [0, 0, 0, 0xC8];
    assert Decode(SignExtended, IntToBytes(200)) == 0xFFFF_FFC8;
    LookupAfterInsert(SignExtended, [], 200, name, 200);
  }

  /** The value a Java `int` with this bit pattern stands for, in two's
      complement. Java compares ints by this value. */
  function Value(a: Int32): int
  {
    if a < 0x8000_0000 then a as int else a as int - 0x1_0000_0000
  }

  /** The records' ids, as the decoder reads them, ascend as Java ints. */
  predicate SortedIds(d: Decoder, file: seq<Byte>)
  {
    forall i, j :: 0 <= i < j < Count(file) ==> Value(IdAt(d, file, i)) <= Value(IdAt(d, file, j))
  }

  /** On sorted records, an id below `q` rules out every record before it. */
  lemma SortedBelow(d: Decoder, file: seq<Byte>, q: Int32, mid: nat)
    requires SortedIds(d, file) && mid < Count(file) && Value(IdAt(d, file, mid)) < Value(q)
    ensures forall j :: 0 <= j <= mid ==> Value(IdAt(d, file, j)) < Value(q)
  {
    forall j | 0 <= j <= mid
      ensures Value(IdAt(d, file, j)) < Value(q)
    {
      if j < mid {
        assert Value(IdAt(d, file, j)) <= Value(IdAt(d, file, mid));
      }
    }
  }

  /** On sorted records, an id above `q` rules out every record after it. */
  lemma SortedAbove(d: Decoder, file: seq<Byte>, q: Int32, mid: nat)
    requires SortedIds(d, file) && mid < Count(file) && Value(q) < Value(IdAt(d, file, mid))
    ensures forall j :: mid <= j < Count(file) ==> Value(q) < Value(IdAt(d, file, j))
  {
    forall j | mid <= j < Count(file)
      ensures Value(q) < Value(IdAt(d, file, j))
    {
      if mid < j {
        assert Value(IdAt(d, file, mid)) <= Value(IdAt(d, file, j));
      }
    }
  }

  /** `selectBinarySearch`: a binary search over the records by id, with
      the ids compared as Java ints. Whatever it returns is a record whose
      id has the value of `q`; on a file sorted by id it finds one whenever
      there is one. */
  method SelectBinarySearch(d: Decoder, file: seq<Byte>, q: Int32) returns (r: Option<User>)
    ensures r.Some? ==> exists j :: 0 <= j < Count(file) && Value(IdAt(d, file, j)) == Value(q)
                                    && r.value == User(IdAt(d, file, j), NameAt(file, j))
    ensures r.None? && SortedIds(d, file) ==> forall j :: 0 <= j < Count(file) ==> Value(IdAt(d, file, j)) != Value(q)
  {
    var low: int := 0;
    var high: int := Count(file) - 1;
    while low <= high
      invariant 0 <= low <= high + 1 <= Count(file)
      invariant SortedIds(d, file) ==> forall j :: 0 <= j < low ==> Value(IdAt(d, file, j)) < Value(q)
      invariant SortedIds(d, file) ==> forall j :: 0 <= j && high < j < Count(file) ==> Value(q) < Value(IdAt(d, file, j))
      decreases high - low
    {
      var mid := (low + high) / 2;
      var id := IdAt(d, file, mid);
      if Value(id) < Value(q) {
        if SortedIds(d, file) {
          SortedBelow(d, file, q, mid);
        }
        low := mid + 1;
      } else if Value(id) > Value(q) {
        if SortedIds(d, file) {
          SortedAbove(d, file, q, mid);
        }
        high := mid - 1;
      } else {
        return Some(User(id, NameAt(file, mid)));
      }
    }
    return None;
  }
}

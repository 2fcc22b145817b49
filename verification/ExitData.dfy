/** The packed exit request data and its decoding (decodeValidatorsData). */
module ExitData {
  import opened Wrappers
  import opened Arithmetic
  import opened Bytes

  datatype Entry = Entry(exitDataIndex: nat, moduleId: nat, nodeOpId: nat, validatorIndex: nat, pubkey: string)

  const ENTRY_SIZE := 64

  /** Big-endian value of a byte string. */
  function BigEndian(bytes: seq<Byte>): nat {
    if bytes == [] then 0 else 256 * BigEndian(bytes[..|bytes| - 1]) + bytes[|bytes| - 1]
  }

  function ToBigEndian(n: nat, width: nat): (bytes: seq<Byte>)
    ensures |bytes| == width
  {
    if width == 0 then [] else ToBigEndian(n / 256, width - 1) + [n % 256]
  }

  /** The part of s from i to j that exists, as Buffer.subarray gives it. */
  function Subarray(s: seq<Byte>, i: nat, j: nat): seq<Byte>
    requires i <= j
  {
    s[Min(i, |s|)..Min(j, |s|)]
  }

  /** The k-th piece of the data, shorter than an entry if the data ends in it. */
  function Piece(data: seq<Byte>, k: nat): seq<Byte> {
    Subarray(data, k * ENTRY_SIZE, k * ENTRY_SIZE + ENTRY_SIZE)
  }

  function EntryOf(k: nat, piece: seq<Byte>): Entry {
    Entry(k, BigEndian(Subarray(piece, 0, 3)), BigEndian(Subarray(piece, 3, 8)),
          BigEndian(Subarray(piece, 8, 16)), ToHex(Subarray(piece, 16, 64)))
  }

  /** How many entries, a trailing partial one included. */
  function EntryCount(data: seq<Byte>): nat {
    (|data| + ENTRY_SIZE - 1) / ENTRY_SIZE
  }

  /**
    A trailing partial entry too short to hold one byte of each number makes the decoder throw
    (there is no number in an empty byte string); a longer one is decoded with what is there.
   */
  predicate Decodable(data: seq<Byte>) {
    var tail := |data| % ENTRY_SIZE;
    tail == 0 || tail > 8
  }

  function Build<T>(n: nat, f: nat -> T): (s: seq<T>)
    ensures |s| == n
  {
    if n == 0 then [] else Build(n - 1, f) + [f(n - 1)]
  }

  lemma {:induction false} BuildAt<T>(n: nat, f: nat -> T, k: nat)
    requires k < n
    ensures Build(n, f)[k] == f(k)
  {
    if k < n - 1 {
      BuildAt(n - 1, f, k);
    }
  }

  function Entries(data: seq<Byte>, n: nat): (es: seq<Entry>)
    ensures |es| == n
  {
    Build(n, k => EntryOf(k, Piece(data, k)))
  }

  function Decode(data: seq<Byte>): Option<seq<Entry>> {
    if Decodable(data) then Some(Entries(data, EntryCount(data))) else None
  }

  /** Entry k is read at offset 64 k, and knows its position. */
  lemma EntriesAt(data: seq<Byte>, n: nat, k: nat)
    requires k < n
    ensures Entries(data, n)[k] == EntryOf(k, Piece(data, k)) && Entries(data, n)[k].exitDataIndex == k
  {
    BuildAt(n, k => EntryOf(k, Piece(data, k)), k);
  }

  /**
    Data is rejected exactly when a trailing piece is too short to hold a byte of each number;
    otherwise there is one entry for every 64 bytes begun.
   */
  lemma DecodeExact(data: seq<Byte>)
    ensures Decode(data).None? <==> 1 <= |data| % 64 <= 8
    ensures Decode(data).Some? ==> var n := |Decode(data).value|; 64 * (n - 1) < |data| <= 64 * n
  {
  }

  lemma EntriesStep(data: seq<Byte>, n: nat)
    ensures Entries(data, n + 1) == Entries(data, n) + [EntryOf(n, Piece(data, n))]
  {
  }

  /** A piece is whole, or it is the tail. */
  lemma PieceSize(data: seq<Byte>, k: nat)
    requires k * ENTRY_SIZE < |data|
    ensures var size := |Piece(data, k)|;
            size == ENTRY_SIZE || (size == |data| % ENTRY_SIZE && |data| < (k + 1) * ENTRY_SIZE)
  {
  }

  lemma CountOf(data: seq<Byte>, n: nat)
    requires |data| <= n * ENTRY_SIZE < |data| + ENTRY_SIZE
    ensures EntryCount(data) == n
  {
  }

  method DecodeEntry(exitDataIndex: nat, entry: seq<Byte>) returns (r: Option<Entry>)
    ensures r == if |entry| <= 8 then None else Some(EntryOf(exitDataIndex, entry))
  {
    var moduleId, nodeOpId := Subarray(entry, 0, 3), Subarray(entry, 3, 8);
    var validatorIndex, validatorPubkey := Subarray(entry, 8, 16), Subarray(entry, 16, 64);
    if moduleId == [] || nodeOpId == [] || validatorIndex == [] {
      return None;
    }
    return Some(Entry(exitDataIndex, BigEndian(moduleId), BigEndian(nodeOpId), BigEndian(validatorIndex),
                      ToHex(validatorPubkey)));
  }

  method DecodeValidatorsData(data: seq<Byte>) returns (r: Option<seq<Entry>>)
    ensures r == Decode(data)
  {
    var entries: seq<Entry> := [];
    var exitDataIndex, offset := 0, 0;
    while offset < |data|
      invariant offset == exitDataIndex * ENTRY_SIZE && offset < |data| + ENTRY_SIZE
      invariant offset > |data| ==> |data| % ENTRY_SIZE > 8
      invariant entries == Entries(data, exitDataIndex)
    {
      PieceSize(data, exitDataIndex);
      EntriesStep(data, exitDataIndex);
      var entry := DecodeEntry(exitDataIndex, Subarray(data, offset, offset + ENTRY_SIZE));
      if entry.None? {
        return None;
      }
      entries := entries + [entry.value];
      exitDataIndex := exitDataIndex + 1;
      offset := offset + ENTRY_SIZE;
    }
    CountOf(data, exitDataIndex);
    return Some(entries);
  }

  // ---------- round trips ----------

  lemma {:induction false} BigEndianInverse(bytes: seq<Byte>)
    ensures ToBigEndian(BigEndian(bytes), |bytes|) == bytes
    ensures BigEndian(bytes) < Pow(256, |bytes|)
  {
    if bytes != [] {
      var high, low := bytes[..|bytes| - 1], bytes[|bytes| - 1];
      BigEndianInverse(high);
      assert BigEndian(bytes) / 256 == BigEndian(high) && BigEndian(bytes) % 256 == low;
    }
  }

  lemma {:induction false} ToBigEndianInverse(n: nat, width: nat)
    requires n < Pow(256, width)
    ensures BigEndian(ToBigEndian(n, width)) == n
  {
    if width > 0 {
      ToBigEndianInverse(n / 256, width - 1);
      var bytes := ToBigEndian(n, width);
      assert bytes[..width - 1] == ToBigEndian(n / 256, width - 1);
    }
  }

  /** The value of a hexadecimal digit as the decoder prints them. */
  function DigitValue(c: char): nat {
    if '0' <= c <= '9' then c as int - '0' as int
    else if 'a' <= c <= 'f' then c as int - 'a' as int + 10
    else 0
  }

  function FromDigits(s: string): seq<Byte> {
    if |s| < 2 then [] else [16 * DigitValue(s[0]) + DigitValue(s[1])] + FromDigits(s[2..])
  }

  function FromHex(s: string): seq<Byte> {
    if |s| < 2 then [] else FromDigits(s[2..])
  }

  lemma {:induction false} FromDigitsInverse(value: seq<Byte>)
    ensures FromDigits(Digits(value)) == value
  {
    if value != [] {
      FromDigitsInverse(value[1..]);
      assert Digits(value)[2..] == Digits(value[1..]);
    }
  }

  lemma FromHexInverse(value: seq<Byte>)
    ensures FromHex(ToHex(value)) == value
  {
    FromDigitsInverse(value);
    assert ToHex(value)[2..] == Digits(value);
  }

  /** Module, node operator, validator index and key, in 3 + 5 + 8 + 48 bytes. */
  function EncodeEntry(e: Entry): seq<Byte> {
    ToBigEndian(e.moduleId, 3) + ToBigEndian(e.nodeOpId, 5) + ToBigEndian(e.validatorIndex, 8) + FromHex(e.pubkey)
  }

  function Join(pieces: seq<seq<Byte>>): seq<Byte> {
    if pieces == [] then [] else Join(pieces[..|pieces| - 1]) + pieces[|pieces| - 1]
  }

  function Encode(es: seq<Entry>): seq<Byte> {
    Join(seq(|es|, k requires 0 <= k < |es| => EncodeEntry(es[k])))
  }

  ghost predicate InRange(e: Entry) {
    e.moduleId < Pow(256, 3) && e.nodeOpId < Pow(256, 5) && e.validatorIndex < Pow(256, 8)
    && exists key: seq<Byte> :: |key| == 48 && e.pubkey == ToHex(key)
  }

  /** Pieces of one entry's size are found at their places in what they join to. */
  lemma {:induction false} JoinAt(pieces: seq<seq<Byte>>, k: nat)
    requires forall i :: 0 <= i < |pieces| ==> |pieces[i]| == ENTRY_SIZE
    ensures |Join(pieces)| == |pieces| * ENTRY_SIZE
    ensures k < |pieces| ==> Piece(Join(pieces), k) == pieces[k]
  {
    if pieces != [] {
      var n := |pieces| - 1;
      JoinAt(pieces[..n], k);
      if k < n {
        PiecePrefix(Join(pieces[..n]), pieces[n], k);
      }
    }
  }

  lemma PiecePrefix(a: seq<Byte>, b: seq<Byte>, k: nat)
    requires (k + 1) * ENTRY_SIZE <= |a|
    ensures Piece(a + b, k) == Piece(a, k)
  {
  }

  /** Two byte strings of n entries' size with the same pieces are equal. */
  lemma {:induction false} SamePieces(a: seq<Byte>, b: seq<Byte>, n: nat)
    requires |a| == |b| == n * ENTRY_SIZE && forall k: nat :: k < n ==> Piece(a, k) == Piece(b, k)
    ensures a == b
  {
    forall i | 0 <= i < |a| ensures a[i] == b[i] {
      var k, r := i / ENTRY_SIZE, i % ENTRY_SIZE;
      assert Piece(a, k)[r] == a[i] && Piece(b, k)[r] == b[i];
    }
  }

  /** One whole entry is the encoding of what the decoder reads in it. */
  lemma EntryEncodes(k: nat, piece: seq<Byte>)
    requires |piece| == ENTRY_SIZE
    ensures EncodeEntry(EntryOf(k, piece)) == piece
    ensures InRange(EntryOf(k, piece))
  {
    var a, b, c, d := piece[0..3], piece[3..8], piece[8..16], piece[16..64];
    BigEndianInverse(a);
    BigEndianInverse(b);
    BigEndianInverse(c);
    FromHexInverse(d);
    assert EntryOf(k, piece) == Entry(k, BigEndian(a), BigEndian(b), BigEndian(c), ToHex(d));
    assert EncodeEntry(EntryOf(k, piece)) == a + b + c + d;
    FourParts(piece);
  }

  lemma FourParts(piece: seq<Byte>)
    requires |piece| == ENTRY_SIZE
    ensures piece[0..3] + piece[3..8] + piece[8..16] + piece[16..64] == piece
  {
    assert piece[0..3] + piece[3..8] == piece[0..8];
    assert piece[0..8] + piece[8..16] == piece[0..16];
    assert piece[0..16] + piece[16..64] == piece;
  }

  /** Decoding and encoding again is the identity on data made of whole entries, and yields entries in range. */
  lemma EncodeDecode(data: seq<Byte>)
    requires |data| % ENTRY_SIZE == 0
    ensures Decode(data).Some? && Encode(Decode(data).value) == data
    ensures forall k :: 0 <= k < |Decode(data).value| ==> InRange(Decode(data).value[k])
  {
    var n := EntryCount(data);
    var es := Entries(data, n);
    var pieces := seq(|es|, k requires 0 <= k < |es| => EncodeEntry(es[k]));
    forall k: nat | k < n ensures pieces[k] == Piece(data, k) && |Piece(data, k)| == ENTRY_SIZE && InRange(es[k]) {
      EntriesAt(data, n, k);
      PieceSize(data, k);
      EntryEncodes(k, Piece(data, k));
    }
    forall k: nat | k < n ensures Piece(Join(pieces), k) == Piece(data, k) {
      JoinAt(pieces, k);
    }
    JoinAt(pieces, 0);
    SamePieces(Join(pieces), data, n);
  }

  /** Reading back one encoded entry. */
  lemma EntryDecodes(e: Entry)
    requires InRange(e)
    ensures |EncodeEntry(e)| == ENTRY_SIZE
    ensures EntryOf(e.exitDataIndex, EncodeEntry(e)) == e
  {
    var piece := EncodeEntry(e);
    var key: seq<Byte> :| |key| == 48 && e.pubkey == ToHex(key);
    FromHexInverse(key);
    ToBigEndianInverse(e.moduleId, 3);
    ToBigEndianInverse(e.nodeOpId, 5);
    ToBigEndianInverse(e.validatorIndex, 8);
    PartsOf(ToBigEndian(e.moduleId, 3), ToBigEndian(e.nodeOpId, 5), ToBigEndian(e.validatorIndex, 8), key);
  }

  lemma PartsOf(a: seq<Byte>, b: seq<Byte>, c: seq<Byte>, d: seq<Byte>)
    requires |a| == 3 && |b| == 5 && |c| == 8 && |d| == 48
    ensures var piece := a + b + c + d;
            && Subarray(piece, 0, 3) == a && Subarray(piece, 3, 8) == b
            && Subarray(piece, 8, 16) == c && Subarray(piece, 16, 64) == d
  {
  }

  /** Encoding entries in range and numbered by position, then decoding, gives them back. */
  lemma DecodeEncode(es: seq<Entry>)
    requires forall k :: 0 <= k < |es| ==> es[k].exitDataIndex == k && InRange(es[k])
    ensures Decode(Encode(es)) == Some(es)
  {
    var pieces := seq(|es|, k requires 0 <= k < |es| => EncodeEntry(es[k]));
    forall k | 0 <= k < |es| ensures |pieces[k]| == ENTRY_SIZE && EntryOf(k, pieces[k]) == es[k] {
      EntryDecodes(es[k]);
    }
    DecodeJoined(es, pieces);
  }

  lemma {:induction false} DecodeJoined(es: seq<Entry>, pieces: seq<seq<Byte>>)
    requires |pieces| == |es|
    requires forall k :: 0 <= k < |es| ==> |pieces[k]| == ENTRY_SIZE && EntryOf(k, pieces[k]) == es[k]
    ensures Decode(Join(pieces)) == Some(es)
  {
    var data := Join(pieces);
    JoinAt(pieces, 0);
    CountOf(data, |es|);
    forall k | 0 <= k < |es| ensures Entries(data, |es|)[k] == es[k] {
      JoinAt(pieces, k);
      EntriesAt(data, |es|, k);
    }
    assert Entries(data, |es|) == es;
  }
}

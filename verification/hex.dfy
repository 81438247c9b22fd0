/** str_to_bin of misc.c, which decodes a hexstring into a byte buffer, and the
    per-byte "%02x" encoding that bin_to_hex prints. */
module Hex {
  import opened Wrappers
  import opened Config

  predicate IsHexDigit(c: char)
  {
    ('0' <= c <= '9') || ('a' <= c <= 'f') || ('A' <= c <= 'F')
  }

  function HexValue(c: char): (v: nat)
    requires IsHexDigit(c)
    ensures v < 16
  {
    if '0' <= c <= '9' then c as int - '0' as int
    else if 'a' <= c <= 'f' then c as int - 'a' as int + 10
    else c as int - 'A' as int + 10
  }

  /** What sscanf(p, "%02x", &b) stores when `hi` and `lo` are the two characters at
      `p`: two hex digits give the byte they spell, high nibble first; a hex digit
      followed by anything else gives that single digit's value; otherwise the
      conversion fails and None says `b` is left as it was. */
  function ScanHexPair(hi: char, lo: char): Option<Byte>
  {
    if !IsHexDigit(hi) then None
    else if IsHexDigit(lo) then Some(HexValue(hi) * 16 + HexValue(lo))
    else Some(HexValue(hi))
  }

  /** The loop bound of str_to_bin: strlen(hexstring) held in a uint8_t, halved. */
  function PairCount(hexstring: string): nat
  {
    (|hexstring| % 256) / 2
  }

  /** Buffer cell `i` after str_to_bin's iteration `i` has run on it. */
  function ScannedCell(old_: Cell, hexstring: string, i: nat): Cell
    requires 2 * i + 1 < |hexstring|
  {
    match ScanHexPair(hexstring[2 * i], hexstring[2 * i + 1])
    case Some(b) => Some(b)
    case None => old_
  }

  /** Iterations `i` up to `n` of str_to_bin's loop. */
  function ScanPairs(data: seq<Cell>, hexstring: string, i: nat, n: nat): (r: seq<Cell>)
    requires i <= n <= |data| && 2 * n <= |hexstring|
    ensures |r| == |data|
    ensures forall k :: i <= k < n ==> r[k] == ScannedCell(data[k], hexstring, k)
    ensures forall k :: 0 <= k < |data| && !(i <= k < n) ==> r[k] == data[k]
    decreases n - i
  {
    if i == n then data
    else ScanPairs(data[i := ScannedCell(data[i], hexstring, i)], hexstring, i + 1, n)
  }

  /** str_to_bin(data, hexstring, len): the buffer afterwards and the return value.
      The loop writes cells 0 .. PairCount(hexstring) - 1, a count taken from the
      string and not from `len`, which is never read; the result is always 0. The
      requires is the C caller's duty that the writes stay inside the buffer. */
  function StrToBin(data: seq<Cell>, hexstring: string, len: int): (r: (seq<Cell>, int))
    requires PairCount(hexstring) <= |data|
    ensures r.1 == 0
    ensures |r.0| == |data|
    ensures forall i :: (0 <= i < PairCount(hexstring) && IsHexDigit(hexstring[2 * i])
                          && IsHexDigit(hexstring[2 * i + 1])) ==>
              r.0[i] == Some(16 * HexValue(hexstring[2 * i]) + HexValue(hexstring[2 * i + 1]))
    ensures forall i :: 0 <= i < PairCount(hexstring) && !IsHexDigit(hexstring[2 * i]) ==>
              r.0[i] == data[i]
    ensures forall i :: PairCount(hexstring) <= i < |data| ==> r.0[i] == data[i]
  {
    (ScanPairs(data, hexstring, 0, PairCount(hexstring)), 0)
  }

  // ---------------------------------------------------------------------------
  // The store as written: "%02x" converts into an unsigned int, so each converted
  // pair writes four bytes at &data[i]

  /** The four-byte store of a scanned value below 256 at offset `i` of `mem`, on a
      little-endian machine: the value in cell `i`, zero in the three cells after it.
      A failed conversion stores nothing. */
  function StoreWide(mem: seq<Cell>, i: nat, v: Option<Byte>): (r: seq<Cell>)
    requires i + 3 < |mem|
    ensures |r| == |mem|
    ensures v.Some? ==> r[i] == v && r[i + 1] == r[i + 2] == r[i + 3] == Some(0)
    ensures forall k :: 0 <= k < |mem| && (v.None? || !(i <= k <= i + 3)) ==> r[k] == mem[k]
  {
    match v
    case None => mem
    case Some(b) => mem[i := Some(b)][i + 1 := Some(0)][i + 2 := Some(0)][i + 3 := Some(0)]
  }

  /** The first `n` iterations of str_to_bin's loop with the four-byte store. `mem`
      is the memory from `data` on, including the bytes past the buffer. */
  function WidePairs(mem: seq<Cell>, hexstring: string, n: nat): (r: seq<Cell>)
    requires n + 3 <= |mem| && 2 * n <= |hexstring|
    ensures |r| == |mem|
    ensures forall k :: n + 3 <= k < |mem| ==> r[k] == mem[k]
  {
    if n == 0 then mem
    else
      StoreWide(WidePairs(mem, hexstring, n - 1), n - 1,
                ScanHexPair(hexstring[2 * (n - 1)], hexstring[2 * (n - 1) + 1]))
  }

  /** str_to_bin as written: the same loop bound and return value as StrToBin, but
      every converted pair stores four bytes. The requires makes room for the
      three bytes the last store reaches beyond the last pair. */
  function StrToBinAsWritten(mem: seq<Cell>, hexstring: string, len: int): (r: (seq<Cell>, int))
    requires PairCount(hexstring) + 3 <= |mem|
    ensures r.1 == 0 && |r.0| == |mem|
    ensures forall k :: PairCount(hexstring) + 3 <= k < |mem| ==> r.0[k] == mem[k]
  {
    (WidePairs(mem, hexstring, PairCount(hexstring)), 0)
  }

  /** A `-K` key of 2 * KEYLEN characters whose last pair starts with a hex digit
      makes the last store write cell KEYLEN + 2, three bytes past the end of the
      KEYLEN-byte buffer malloc returned. */
  lemma {:induction false} WideStoreOverruns(h: string, mem: seq<Cell>)
    requires |h| == 2 * KeyLen && IsHexDigit(h[2 * KeyLen - 2]) && |mem| == KeyLen + 3
    ensures StrToBinAsWritten(mem, h, KeyLen).0[KeyLen] == Some(0)
    ensures StrToBinAsWritten(mem, h, KeyLen).0[KeyLen + 2] == Some(0)
  {
    assert PairCount(h) == KeyLen;
    var before := WidePairs(mem, h, KeyLen - 1);
    assert ScanHexPair(h[2 * (KeyLen - 1)], h[2 * (KeyLen - 1) + 1]).Some?;
    assert WidePairs(mem, h, KeyLen) ==
           StoreWide(before, KeyLen - 1, ScanHexPair(h[2 * (KeyLen - 1)], h[2 * (KeyLen - 1) + 1]));
  }

  /** Inside the buffer too the two stores differ: after "00", a pair that does not
      convert finds its cell zeroed by the four-byte store, where a one-byte store
      leaves it as malloc returned it. */
  lemma {:induction false} WideZeroesNext()
    ensures StrToBinAsWritten(Uninit(5), "00zz", 2).0[1] == Some(0)
    ensures StrToBin(Uninit(2), "00zz", 2).0[1] == None
  {
    var h := "00zz";
    assert PairCount(h) == 2;
    assert ScanHexPair(h[0], h[1]) == Some(0);
    assert ScanHexPair(h[2], h[3]) == None;
    var one := WidePairs(Uninit(5), h, 1);
    assert one == StoreWide(WidePairs(Uninit(5), h, 0), 0, Some(0));
    assert WidePairs(Uninit(5), h, 2) == StoreWide(one, 1, None);
  }

  /** The lowercase hex digit of a nibble, as "%x" prints it. */
  function HexDigitChar(n: nat): (c: char)
    requires n < 16
  {
    if n < 10 then ('0' as int + n) as char else ('a' as int + n - 10) as char
  }

  /** printf("%02x") of each byte in turn. */
  function EncodeHex(bytes: seq<Byte>): (h: string)
    ensures |h| == 2 * |bytes|
    ensures forall i :: 0 <= i < |bytes| ==>
              h[2 * i] == HexDigitChar(bytes[i] / 16) && h[2 * i + 1] == HexDigitChar(bytes[i] % 16)
  {
    if bytes == [] then []
    else [HexDigitChar(bytes[0] / 16), HexDigitChar(bytes[0] % 16)] + EncodeHex(bytes[1..])
  }

  /** Every cell known and holding the given bytes. */
  function Known(bytes: seq<Byte>): seq<Cell>
  {
    seq(|bytes|, i requires 0 <= i < |bytes| => Some(bytes[i]))
  }

  predicate IsLowerHexDigit(c: char)
  {
    ('0' <= c <= '9') || ('a' <= c <= 'f')
  }

  lemma HexDigitRoundTrip(n: nat)
    requires n < 16
    ensures IsLowerHexDigit(HexDigitChar(n)) && HexValue(HexDigitChar(n)) == n
  {
  }

  lemma HexValueRoundTrip(c: char)
    requires IsLowerHexDigit(c)
    ensures HexDigitChar(HexValue(c)) == c
  {
  }

  /** The two "%02x" characters of a byte scan back to that byte. */
  lemma BytePairRoundTrip(b: Byte)
    ensures ScanHexPair(HexDigitChar(b / 16), HexDigitChar(b % 16)) == Some(b)
  {
    HexDigitRoundTrip(b / 16);
    HexDigitRoundTrip(b % 16);
  }

  /** Two lowercase hex digits scan to a byte whose "%02x" characters are them again. */
  lemma CharPairRoundTrip(hi: char, lo: char) returns (b: Byte)
    requires IsLowerHexDigit(hi) && IsLowerHexDigit(lo)
    ensures ScanHexPair(hi, lo) == Some(b)
    ensures HexDigitChar(b / 16) == hi && HexDigitChar(b % 16) == lo
  {
    b := 16 * HexValue(hi) + HexValue(lo);
    assert b / 16 == HexValue(hi) && b % 16 == HexValue(lo);
    HexValueRoundTrip(hi);
    HexValueRoundTrip(lo);
  }

  /** Decoding the "%02x" text of up to 127 bytes gives those bytes back, whatever the
      buffer held before. */
  lemma EncodeThenDecode(bytes: seq<Byte>, data: seq<Cell>, len: int)
    requires |bytes| < 128 && |data| == |bytes|
    ensures StrToBin(data, EncodeHex(bytes), len).0 == Known(bytes)
  {
    var h := EncodeHex(bytes);
    assert |h| == 2 * |bytes| < 256;
    assert |h| % 256 == |h|;
    assert PairCount(h) == |bytes|;
    var r := StrToBin(data, h, len).0;
    forall i | 0 <= i < |bytes|
      ensures r[i] == Some(bytes[i])
    {
      BytePairRoundTrip(bytes[i]);
      assert h[2 * i] == HexDigitChar(bytes[i] / 16);
      assert h[2 * i + 1] == HexDigitChar(bytes[i] % 16);
      assert IsHexDigit(h[2 * i]) && IsHexDigit(h[2 * i + 1]);
    }
    assert r == Known(bytes);
  }

  /** An even-length lowercase hexstring of fewer than 256 characters decodes into
      bytes whose "%02x" text is that hexstring again. */
  lemma DecodeThenEncode(h: string, data: seq<Cell>, len: int)
    requires |h| < 256 && |h| % 2 == 0 && |data| == |h| / 2
    requires forall i :: 0 <= i < |h| ==> IsLowerHexDigit(h[i])
    ensures exists bytes :: StrToBin(data, h, len).0 == Known(bytes) && EncodeHex(bytes) == h
  {
    var n := |h| / 2;
    assert PairCount(h) == n;
    var bytes: seq<Byte> := [];
    var i := 0;
    while i < n
      invariant 0 <= i <= n && |bytes| == i
      invariant forall k :: 0 <= k < i ==> ScanHexPair(h[2 * k], h[2 * k + 1]) == Some(bytes[k])
      invariant forall k :: 0 <= k < i ==>
                  HexDigitChar(bytes[k] / 16) == h[2 * k] && HexDigitChar(bytes[k] % 16) == h[2 * k + 1]
    {
      var b := CharPairRoundTrip(h[2 * i], h[2 * i + 1]);
      bytes := bytes + [b];
      i := i + 1;
    }
    var r := StrToBin(data, h, len).0;
    var e := EncodeHex(bytes);
    forall k | 0 <= k < n
      ensures r[k] == Some(bytes[k])
    {
      assert IsHexDigit(h[2 * k]) && IsHexDigit(h[2 * k + 1]);
    }
    forall k | 0 <= k < |h|
      ensures e[k] == h[k]
    {
      var j := k / 2;
      assert k == 2 * j || k == 2 * j + 1;
      assert e[2 * j] == HexDigitChar(bytes[j] / 16) == h[2 * j];
      assert e[2 * j + 1] == HexDigitChar(bytes[j] % 16) == h[2 * j + 1];
    }
    assert r == Known(bytes) && e == h;
  }

  /** A STRLEN_BTS(n) buffer holds the "%02x" text of `n` bytes with two characters
      to spare. */
  lemma StrlenBtsFitsHex(bytes: seq<Byte>)
    ensures StrlenBts(|bytes|) == |EncodeHex(bytes)| + 2
  {
  }
}

/**
 TLS records: MAC, then pad, then encrypt (section 6.2.3.2 of RFC 5246).
 */
module TlsRecord {
  import opened Bytes
  import opened Ciphers
  import opened Scatterlist
  import opened CryptoRun
  import opened UserPages
  import opened CryptoOps
  import opened AuthRecord
  import opened AuthMapping

  /// The format

  /** The length of the padding of n bytes: at least one byte, up to the next whole block. */
  function PadSize(n: nat, blocksize: nat): (p: nat)
    requires blocksize > 0
    ensures 0 < p <= blocksize
  {
    blocksize - n % blocksize
  }

  /** Padding: every byte holds the number of bytes before the last one, cut to a byte. */
  function Pad(n: nat, blocksize: nat): (r: seq<byte>)
    requires blocksize > 0
    ensures |r| == PadSize(n, blocksize)
  {
    seq(PadSize(n, blocksize), _ => (PadSize(n, blocksize) - 1) % 256)
  }

  /** What the padding check makes of a deciphered record: the length of its padding. */
  function PadLength(d: seq<byte>): (r: Option<nat>)
    requires d != []
    ensures r.Some? ==> 0 < r.value <= |d|
  {
    var p := d[|d| - 1];
    if p + 1 <= |d| && forall i | |d| - p - 1 <= i < |d| :: d[i] == p then Some(p + 1) else None
  }

  /** Does the cipher of this session pad? */
  predicate Padded(cfg: Config) {
    cfg.cipher.Some? && cfg.cipher.value.blocksize > 1
  }

  /** The fragment and its tag. */
  function Tagged(cfg: Config, auth: seq<byte>, m: seq<byte>, tagLen: nat, buffer: seq<byte>): seq<byte>
    requires cfg.hash.Some? ==>
               LawfulHash(cfg.hash.value) && Stack(buffer, tagLen)
  {
    if cfg.hash.Some? then m + Tag(cfg.hash.value, auth + m, buffer, tagLen) else m
  }

  /** The record before encryption. */
  function Plain(cfg: Config, auth: seq<byte>, m: seq<byte>, tagLen: nat, buffer: seq<byte>): seq<byte>
    requires cfg.hash.Some? ==>
               LawfulHash(cfg.hash.value) && Stack(buffer, tagLen)
  {
    var body := Tagged(cfg, auth, m, tagLen, buffer);
    if Padded(cfg) then body + Pad(|body|, cfg.cipher.value.blocksize) else body
  }

  function Seal(cfg: Config, iv: seq<byte>, auth: seq<byte>, m: seq<byte>, tagLen: nat, buffer: seq<byte>): Out
    requires cfg.hash.Some? ==>
               LawfulHash(cfg.hash.value) && Stack(buffer, tagLen)
  {
    var plain := Plain(cfg, auth, m, tagLen, buffer);
    if cfg.cipher.Some? then cfg.cipher.value.enc(iv, plain) else Out(plain, iv)
  }

  /** The outcome of a decryption: the return value, the buffer, and the length reported. */
  datatype Opening = Opening(ret: int, data: seq<byte>, len: nat)

  function Open(cfg: Config, iv: seq<byte>, auth: seq<byte>, c: seq<byte>, tagLen: nat, buffer: seq<byte>): Opening
    requires c != [] && Usable(cfg, iv) && |buffer| >= AALG_MAX_RESULT_LEN
  {
    if cfg.cipher.Some? && |c| % cfg.cipher.value.blocksize != 0 then Opening(EINVAL, c, |c|)
    else
      Checked(cfg, auth, Deciphered(cfg, iv, c), tagLen, buffer)
  }

  /** The checks on a deciphered record: first the padding, then, if there is a hash, the tag.
      Bad padding and a bad tag are reported alike, but good padding that leaves no room for the
      tag is not. */
  function Checked(cfg: Config, auth: seq<byte>, d: seq<byte>, tagLen: nat, buffer: seq<byte>): Opening
    requires d != [] && |buffer| >= AALG_MAX_RESULT_LEN && (cfg.hash.Some? ==> LawfulHash(cfg.hash.value))
  {
    var pad := if Padded(cfg) then PadLength(d) else Some(0);
    var n := if pad.Some? then |d| - pad.value else |d|;
    if cfg.hash.None? then Opening(0, d, n)
    else if tagLen > AALG_MAX_RESULT_LEN || tagLen > n then Opening(EINVAL, d, |d|)
    else if pad.None? || d[n - tagLen..n] != Tag(cfg.hash.value, auth + d[..n - tagLen], buffer, tagLen) then
      Opening(EBADMSG, d, |d|)
    else Opening(0, d, n - tagLen)
  }

  function Deciphered(cfg: Config, iv: seq<byte>, c: seq<byte>): (d: seq<byte>)
    requires Usable(cfg, iv) && (cfg.cipher.Some? ==> |c| % cfg.cipher.value.blocksize == 0)
    ensures |d| == |c|
  {
    if cfg.cipher.None? then c
    else
      assert KeepsLength(cfg.cipher.value, false, iv, c);
      cfg.cipher.value.dec(iv, c).data
  }

  /// Padding

  lemma PadSizeWhole(n: nat, blocksize: nat)
    requires blocksize > 0
    ensures (n + PadSize(n, blocksize)) % blocksize == 0
  {
    var q := n / blocksize;
    assert n + PadSize(n, blocksize) == (q + 1) * blocksize;
    MultipleOf(q + 1, blocksize);
  }

  /** The check finds the padding that was written if and only if its length fits a byte. */
  lemma PadFound(x: seq<byte>, blocksize: nat)
    requires blocksize > 0
    ensures PadLength(x + Pad(|x|, blocksize)) == Some(PadSize(|x|, blocksize)) <==> PadSize(|x|, blocksize) <= 256
  {
    var pad := Pad(|x|, blocksize);
    var d := x + pad;
    forall i | |x| <= i < |d| ensures d[i] == (|pad| - 1) % 256 {
      assert d[i] == pad[i - |x|];
    }
  }

  /// Reserved against written

  /** `cryptodev_get_dst_len` for a TLS operation. */
  function DstLen(cfg: Config, encrypt: bool, len: nat, tagLen: nat): (n: nat)
    requires cfg.cipher.Some? && cfg.cipher.value.blocksize > 0
  {
    if !encrypt then len else len + tagLen + PadSize(len + tagLen, cfg.cipher.value.blocksize)
  }

  /** The bytes a TLS encryption writes. */
  function Written(cfg: Config, len: nat, tagLen: nat): nat
    requires cfg.cipher.Some? && cfg.cipher.value.blocksize > 0
  {
    var body := if cfg.hash.Some? then len + tagLen else len;
    if Padded(cfg) then body + PadSize(body, cfg.cipher.value.blocksize) else body
  }

  /** n is the least multiple of k strictly above m. */
  predicate NextMultiple(n: nat, k: nat, m: nat)
    requires k > 0
  {
    n % k == 0 && m < n <= m + k
  }

  lemma NextMultipleIsLeast(n: nat, k: nat, m: nat, x: nat)
    requires k > 0 && NextMultiple(n, k, m) && x % k == 0 && x > m
    ensures n <= x
  {
    if x < n {
      MultipleDifference(n, x, k);
      MultipleStep(n - x, k);
    }
  }

  /** The destination that is reserved always holds the record that is written; with a hash
      and a block cipher both are the next whole block. */
  lemma ReservedCoversWritten(cfg: Config, len: nat, tagLen: nat)
    requires cfg.cipher.Some? && cfg.cipher.value.blocksize > 0
    ensures Written(cfg, len, tagLen) <= DstLen(cfg, true, len, tagLen)
    ensures cfg.hash.Some? && Padded(cfg) ==>
              Written(cfg, len, tagLen) == DstLen(cfg, true, len, tagLen)
    ensures NextMultiple(DstLen(cfg, true, len, tagLen), cfg.cipher.value.blocksize, len + tagLen)
  {
    var bs := cfg.cipher.value.blocksize;
    PadSizeWhole(len, bs);
    PadSizeWhole(len + tagLen, bs);
    NextMultipleIsLeast(len + PadSize(len, bs), bs, len, len + tagLen + PadSize(len + tagLen, bs));
  }

  lemma PlainLength(cfg: Config, auth: seq<byte>, m: seq<byte>, tagLen: nat, buffer: seq<byte>)
    requires cfg.cipher.Some? && cfg.cipher.value.blocksize > 0
    requires cfg.hash.Some? ==>
               LawfulHash(cfg.hash.value) && Stack(buffer, tagLen)
    ensures |Plain(cfg, auth, m, tagLen, buffer)| == Written(cfg, |m|, tagLen)
    ensures |Plain(cfg, auth, m, tagLen, buffer)| % cfg.cipher.value.blocksize == 0
  {
    if Padded(cfg) {
      PadSizeWhole(|Tagged(cfg, auth, m, tagLen, buffer)|, cfg.cipher.value.blocksize);
    }
  }

  /// Round trip

  lemma OpenSealed(cfg: Config, iv: seq<byte>, auth: seq<byte>, m: seq<byte>, tagLen: nat,
                   b1: seq<byte>, b2: seq<byte>)
    requires cfg.cipher.Some? && cfg.hash.Some? && Usable(cfg, iv) && 1 < cfg.cipher.value.blocksize <= 256
    requires Stack(b1, tagLen) && Stack(b2, tagLen)
    ensures var c := Seal(cfg, iv, auth, m, tagLen, b1).data;
            && |c| == DstLen(cfg, true, |m|, tagLen)
            && Open(cfg, iv, auth, c, tagLen, b2) ==
               (var plain := Plain(cfg, auth, m, tagLen, b1);
                if tagLen > AALG_MAX_RESULT_LEN then Opening(EINVAL, plain, |c|)
                else if Tag(cfg.hash.value, auth + m, b1, tagLen) == Tag(cfg.hash.value, auth + m, b2, tagLen)
                then Opening(0, plain, |m|) else Opening(EBADMSG, plain, |c|))
  {
    hide Lawful, LawfulHash, HashOutput;
    var t := cfg.cipher.value;
    var plain, body := Plain(cfg, auth, m, tagLen, b1), Tagged(cfg, auth, m, tagLen, b1);
    PlainLength(cfg, auth, m, tagLen, b1);
    ReservedCoversWritten(cfg, |m|, tagLen);
    Undone(t, iv, plain);
    PadFound(body, t.blocksize);
    assert plain[|m|..|m| + tagLen] == Tag(cfg.hash.value, auth + m, b1, tagLen) && plain[..|m|] == m;
  }

  lemma Undone(t: Transform, iv: seq<byte>, x: seq<byte>)
    requires Lawful(t) && |iv| == t.ivsize && |x| % t.blocksize == 0
    ensures |t.enc(iv, x).data| == |x| && |t.enc(iv, x).iv| == t.ivsize && t.dec(iv, t.enc(iv, x).data).data == x
  {
    assert KeepsLength(t, true, iv, x) && Inverts(t, iv, x);
  }

  /** Decrypting an encrypted record accepts it, restores the plaintext and reports its
      length, whatever the stack held on either side, if and only if the tag is no longer
      than the digest. */
  lemma RoundTrip(cfg: Config, iv: seq<byte>, auth: seq<byte>, m: seq<byte>, tagLen: nat)
    requires cfg.cipher.Some? && cfg.hash.Some? && Usable(cfg, iv) && 1 < cfg.cipher.value.blocksize <= 256
    ensures (forall b1, b2 | Stack(b1, tagLen) && Stack(b2, tagLen) :: Restored(cfg, iv, auth, m, tagLen, b1, b2))
            <==> tagLen <= cfg.hash.value.digestsize
  {
    hide Lawful, LawfulHash, Tag, Open, Seal;
    var h := cfg.hash.value;
    DigestFits(h);
    if tagLen <= h.digestsize {
      forall b1, b2 | Stack(b1, tagLen) && Stack(b2, tagLen) ensures Restored(cfg, iv, auth, m, tagLen, b1, b2) {
        ShortTag(h, auth + m, b1, b2, tagLen);
        OpenSealed(cfg, iv, auth, m, tagLen, b1, b2);
      }
    } else {
      var b1, b2 := LongTag(h, auth + m, auth + m, tagLen);
      OpenSealed(cfg, iv, auth, m, tagLen, b1, b2);
      assert !Restored(cfg, iv, auth, m, tagLen, b1, b2);
    }
  }

  ghost predicate Restored(cfg: Config, iv: seq<byte>, auth: seq<byte>, m: seq<byte>, tagLen: nat,
                           b1: seq<byte>, b2: seq<byte>)
    requires cfg.cipher.Some? && cfg.hash.Some? && Usable(cfg, iv) && Stack(b1, tagLen) && Stack(b2, tagLen)
  {
    var c := Seal(cfg, iv, auth, m, tagLen, b1).data;
    c != [] &&
    var o := Open(cfg, iv, auth, c, tagLen, b2);
    o.ret == 0 && o.len == |m| <= |o.data| && o.data[..|m|] == m
  }

  /// Soundness and completeness

  /** d is the record of fragment m: m, its tag, and padding of p + 1 bytes that all hold p. */
  predicate IsRecord(h: Hash, auth: seq<byte>, d: seq<byte>, m: seq<byte>, p: byte, tagLen: nat, buffer: seq<byte>)
    requires LawfulHash(h) && |buffer| >= AALG_MAX_RESULT_LEN
  {
    tagLen <= AALG_MAX_RESULT_LEN
    && d == m + Tag(h, auth + m, buffer, tagLen) + seq(p + 1, _ => p)
  }

  /** A decryption accepts exactly the well-formed records, and reports the length of the one
      fragment that the record can hold. */
  lemma OpenIff(cfg: Config, iv: seq<byte>, auth: seq<byte>, c: seq<byte>, tagLen: nat, buffer: seq<byte>)
    requires c != [] && Usable(cfg, iv) && cfg.hash.Some? && Padded(cfg) && |buffer| >= AALG_MAX_RESULT_LEN
    ensures var o := Open(cfg, iv, auth, c, tagLen, buffer);
            && (o.ret == 0 <==>
                  |c| % cfg.cipher.value.blocksize == 0 &&
                  exists m, p :: IsRecord(cfg.hash.value, auth, Deciphered(cfg, iv, c), m, p, tagLen, buffer))
            && (o.ret == 0 ==>
                  o.data == Deciphered(cfg, iv, c) &&
                  forall m, p | IsRecord(cfg.hash.value, auth, o.data, m, p, tagLen, buffer) ::
                    o.len == |m| && o.data[..o.len] == m)
  {
    hide Lawful, LawfulHash, IsRecord, Tag, PadLength, Deciphered;
    var o := Open(cfg, iv, auth, c, tagLen, buffer);
    if |c| % cfg.cipher.value.blocksize == 0 {
      var d := Deciphered(cfg, iv, c);
      forall m, p | IsRecord(cfg.hash.value, auth, d, m, p, tagLen, buffer)
        ensures o.ret == 0 && o.len == |m| && o.data[..o.len] == m
      {
        RecordParts(cfg.hash.value, auth, d, m, p, tagLen, buffer);
      }
      if o.ret == 0 {
        RecordFound(cfg.hash.value, auth, d, tagLen, buffer, o.len);
      }
    }
  }

  lemma RecordParts(h: Hash, auth: seq<byte>, d: seq<byte>, m: seq<byte>, p: byte, tagLen: nat, buffer: seq<byte>)
    requires LawfulHash(h) && |buffer| >= AALG_MAX_RESULT_LEN && IsRecord(h, auth, d, m, p, tagLen, buffer)
    ensures d != [] && PadLength(d) == Some(p + 1) && |d| == |m| + tagLen + p + 1 && tagLen <= AALG_MAX_RESULT_LEN
    ensures d[..|m|] == m && d[|m|..|m| + tagLen] == Tag(h, auth + m, buffer, tagLen)
  {
    var tail := seq(p + 1, _ => p);
    forall i | |d| - p - 1 <= i < |d| ensures d[i] == p {
      assert d[i] == tail[i - (|d| - p - 1)];
    }
  }

  lemma RecordFound(h: Hash, auth: seq<byte>, d: seq<byte>, tagLen: nat, buffer: seq<byte>, n: nat)
    requires LawfulHash(h) && |buffer| >= AALG_MAX_RESULT_LEN && tagLen <= AALG_MAX_RESULT_LEN
    requires d != [] && PadLength(d).Some? && n + tagLen == |d| - PadLength(d).value
    requires d[n..n + tagLen] == Tag(h, auth + d[..n], buffer, tagLen)
    ensures IsRecord(h, auth, d, d[..n], d[|d| - 1], tagLen, buffer)
  {
    var p := d[|d| - 1];
    assert d[n + tagLen..] == seq(p + 1, _ => p);
    assert d == d[..n] + d[n..n + tagLen] + d[n + tagLen..];
  }

  /// One error or two

  /** All refused records of this length are refused with the same error. */
  ghost predicate OneError(cfg: Config, auth: seq<byte>, len: nat, tagLen: nat, buffer: seq<byte>)
    requires len > 0 && |buffer| >= AALG_MAX_RESULT_LEN && (cfg.hash.Some? ==> LawfulHash(cfg.hash.value))
  {
    forall a: seq<byte>, b: seq<byte> | |a| == |b| == len ::
      var x, y := Checked(cfg, auth, a, tagLen, buffer).ret, Checked(cfg, auth, b, tagLen, buffer).ret;
      x != 0 && y != 0 ==> x == y
  }

  /** The return value tells nothing about the padding of a refused record if and only if the tag
      is empty, the tag cannot be there at all, or no padding can reach into it. */
  lemma OneErrorIff(cfg: Config, auth: seq<byte>, len: nat, tagLen: nat, buffer: seq<byte>)
    requires cfg.hash.Some? && LawfulHash(cfg.hash.value) && Padded(cfg) && len > 0
    requires |buffer| >= AALG_MAX_RESULT_LEN
    ensures OneError(cfg, auth, len, tagLen, buffer) <==>
              tagLen == 0 || tagLen > AALG_MAX_RESULT_LEN || tagLen > len || tagLen + 256 <= len
  {
    hide LawfulHash, Tag, PadLength;
    if tagLen == 0 || tagLen > AALG_MAX_RESULT_LEN || tagLen > len || tagLen + 256 <= len {
      forall d: seq<byte> | |d| == len ensures PadLength(d).Some? ==> PadLength(d).value <= 256 {
        PadAtMost(d);
      }
    } else {
      var a := WidePadding(len);
      var b := BadPadding(len);
      assert Checked(cfg, auth, a, tagLen, buffer).ret == EINVAL;
      assert Checked(cfg, auth, b, tagLen, buffer).ret == EBADMSG;
    }
  }

  lemma PadAtMost(d: seq<byte>)
    requires d != []
    ensures PadLength(d).Some? ==> PadLength(d).value <= 256
  {
  }

  /** A record that is padding throughout, or as far as padding can reach. */
  lemma WidePadding(len: nat) returns (d: seq<byte>)
    requires len > 0
    ensures |d| == len && PadLength(d) == Some(if len < 256 then len else 256)
  {
    var p := if len < 256 then len - 1 else 255;
    d := seq(len, _ => p);
  }

  lemma BadPadding(len: nat) returns (d: seq<byte>)
    requires len > 0
    ensures |d| == len && PadLength(d).None?
  {
    d := seq(len, i => if i == len - 1 then 1 else 0);
    assert len > 1 ==> d[len - 2] == 0;
  }

  /** Without a hash nothing depends on the padding check: every whole record is accepted,
      and one with bad padding is reported in full. */
  lemma NoHashNoPadCheck(cfg: Config, iv: seq<byte>, auth: seq<byte>, c: seq<byte>, tagLen: nat, buffer: seq<byte>)
    requires c != [] && Usable(cfg, iv) && cfg.hash.None? && Padded(cfg) && |buffer| >= AALG_MAX_RESULT_LEN
    ensures var o := Open(cfg, iv, auth, c, tagLen, buffer);
            && (o.ret == 0 <==> |c| % cfg.cipher.value.blocksize == 0)
            && (o.ret == 0 ==> (o.len == |c| <==> PadLength(Deciphered(cfg, iv, c)).None?))
  {
  }

  /// What a record is, byte by byte

  /** plain is the record of fragment m before encryption: m, the front of the digest of the
      additional data and m, and, for a block cipher, padding up to the next whole block; every
      byte of the padding holds the number of bytes before its last one, cut to a byte. */
  ghost predicate IsPlain(cfg: Config, auth: seq<byte>, m: seq<byte>, tagLen: nat, buffer: seq<byte>,
                          plain: seq<byte>)
    requires cfg.cipher.Some? && cfg.cipher.value.blocksize > 0
    requires cfg.hash.Some? ==> LawfulHash(cfg.hash.value) && Stack(buffer, tagLen)
  {
    var bs, n := cfg.cipher.value.blocksize, |m| + (if cfg.hash.Some? then tagLen else 0);
    && |plain| >= n && plain[..|m|] == m
    && (cfg.hash.Some? ==> plain[|m|..n] == HashOutput(cfg.hash.value, auth + m, buffer)[..tagLen])
    && |plain| % bs == 0 && (if bs == 1 then |plain| == n else n < |plain| <= n + bs)
    && forall i | n <= i < |plain| :: plain[i] == (|plain| - n - 1) % 256
  }

  /** data is the sealed record: the cipher's work on the plain one. */
  ghost predicate Sealed(cfg: Config, iv: seq<byte>, auth: seq<byte>, m: seq<byte>, tagLen: nat, buffer: seq<byte>,
                         data: seq<byte>, left: seq<byte>)
    requires cfg.cipher.Some? && cfg.cipher.value.blocksize > 0
    requires cfg.hash.Some? ==> LawfulHash(cfg.hash.value) && Stack(buffer, tagLen)
  {
    exists plain :: IsPlain(cfg, auth, m, tagLen, buffer, plain) && cfg.cipher.value.enc(iv, plain) == Out(data, left)
  }

  lemma SealMeans(cfg: Config, iv: seq<byte>, auth: seq<byte>, m: seq<byte>, tagLen: nat, buffer: seq<byte>)
    requires cfg.cipher.Some? && cfg.cipher.value.blocksize > 0
    requires cfg.hash.Some? ==> LawfulHash(cfg.hash.value) && Stack(buffer, tagLen)
    ensures var o := Seal(cfg, iv, auth, m, tagLen, buffer);
            Sealed(cfg, iv, auth, m, tagLen, buffer, o.data, o.iv)
  {
    hide LawfulHash;
    var plain := Plain(cfg, auth, m, tagLen, buffer);
    PlainLength(cfg, auth, m, tagLen, buffer);
    assert IsPlain(cfg, auth, m, tagLen, buffer, plain);
  }

  /** d ends in padding of p bytes. */
  ghost predicate GoodPad(d: seq<byte>, p: nat) {
    0 < p <= |d| && p <= 256 && forall i | |d| - p <= i < |d| :: d[i] == p - 1
  }

  /** d is a good record of its first n bytes. */
  ghost predicate GoodRecord(h: Hash, blocksize: nat, auth: seq<byte>, d: seq<byte>, n: nat, tagLen: nat,
                             buffer: seq<byte>)
    requires LawfulHash(h) && |buffer| >= AALG_MAX_RESULT_LEN
  {
    && tagLen <= 64 && n + tagLen <= |d|
    && d[n..n + tagLen] == HashOutput(h, auth + d[..n], buffer)[..tagLen]
    && if blocksize == 1 then n + tagLen == |d| else GoodPad(d, |d| - n - tagLen)
  }

  /** The tag cannot be in the record, or not in front of its padding. */
  ghost predicate NoRoom(blocksize: nat, d: seq<byte>, tagLen: nat) {
    tagLen > 64 || tagLen > |d| || (blocksize > 1 && exists p: nat :: GoodPad(d, p) && tagLen + p > |d|)
  }

  /** The outcome of a decryption: a part of a block is refused as it is.  Otherwise the buffer
      holds the deciphered bytes.  With a hash they are accepted if and only if they are a good
      record, whose length is reported; the error is that of a bad message unless the tag cannot
      be there.  Without a hash only the padding is cut off, if it is good. */
  ghost predicate Unsealed(cfg: Config, iv: seq<byte>, auth: seq<byte>, c: seq<byte>, tagLen: nat, buffer: seq<byte>,
                           o: Opening, left: seq<byte>)
    requires cfg.cipher.Some? && Usable(cfg, iv) && |buffer| >= AALG_MAX_RESULT_LEN
  {
    var t, hash := cfg.cipher.value, cfg.hash;
    var d := t.dec(iv, c).data;
    if |c| % t.blocksize != 0 then o == Opening(-22, c, |c|) && left == iv
    else
      && o.data == d && |d| == |c| && left == t.dec(iv, c).iv
      && (hash.Some? ==>
            && (forall n :: GoodRecord(hash.value, t.blocksize, auth, d, n, tagLen, buffer) <==>
                              o.ret == 0 && n == o.len)
            && (o.ret != 0 ==> o.len == |c| && o.ret == if NoRoom(t.blocksize, d, tagLen) then -22 else -74))
      && (hash.None? ==>
            && o.ret == 0 && o.len <= |d|
            && (if t.blocksize > 1 && exists p: nat :: GoodPad(d, p) then GoodPad(d, |d| - o.len) else o.len == |d|))
  }

  lemma OpenMeans(cfg: Config, iv: seq<byte>, auth: seq<byte>, c: seq<byte>, tagLen: nat, buffer: seq<byte>,
                  left: seq<byte>)
    requires c != [] && cfg.cipher.Some? && Usable(cfg, iv) && |buffer| >= AALG_MAX_RESULT_LEN
    requires left == if |c| % cfg.cipher.value.blocksize == 0 then cfg.cipher.value.dec(iv, c).iv else iv
    ensures Unsealed(cfg, iv, auth, c, tagLen, buffer, Open(cfg, iv, auth, c, tagLen, buffer), left)
  {
    hide Lawful, LawfulHash, HashOutput, Checked, NoRoom, GoodRecord, GoodPad;
    CryptKeepsLength(cfg.cipher.value, false, iv, c);
    if |c| % cfg.cipher.value.blocksize == 0 {
      var d := Deciphered(cfg, iv, c);
      if cfg.hash.Some? {
        CheckedMeans(cfg, auth, d, tagLen, buffer);
      } else {
        UncheckedMeans(cfg, auth, d, tagLen, buffer);
      }
    }
  }

  lemma CheckedMeans(cfg: Config, auth: seq<byte>, d: seq<byte>, tagLen: nat, buffer: seq<byte>)
    requires d != [] && |buffer| >= AALG_MAX_RESULT_LEN && cfg.cipher.Some? && cfg.cipher.value.blocksize > 0
    requires cfg.hash.Some? && LawfulHash(cfg.hash.value)
    ensures var o, bs := Checked(cfg, auth, d, tagLen, buffer), cfg.cipher.value.blocksize;
            && o.data == d
            && (forall n :: GoodRecord(cfg.hash.value, bs, auth, d, n, tagLen, buffer) <==> o.ret == 0 && n == o.len)
            && (o.ret != 0 ==> o.len == |d| && o.ret == if NoRoom(bs, d, tagLen) then -22 else -74)
  {
    hide LawfulHash, HashOutput, PadLength, GoodPad;
    PadIsGood(d);
  }

  lemma UncheckedMeans(cfg: Config, auth: seq<byte>, d: seq<byte>, tagLen: nat, buffer: seq<byte>)
    requires d != [] && |buffer| >= AALG_MAX_RESULT_LEN && cfg.cipher.Some? && cfg.cipher.value.blocksize > 0
    requires cfg.hash.None?
    ensures var o, bs := Checked(cfg, auth, d, tagLen, buffer), cfg.cipher.value.blocksize;
            && o.data == d && o.ret == 0 && o.len <= |d|
            && (if bs > 1 && exists p: nat :: GoodPad(d, p) then GoodPad(d, |d| - o.len) else o.len == |d|)
  {
    hide PadLength, GoodPad;
    PadIsGood(d);
  }

  lemma PadIsGood(d: seq<byte>)
    requires d != []
    ensures forall p: nat :: GoodPad(d, p) <==> PadLength(d) == Some(p)
  {
    forall p: nat ensures GoodPad(d, p) <==> PadLength(d) == Some(p) {
      if GoodPad(d, p) {
        assert d[|d| - 1] == p - 1;
      }
    }
  }

  /// The driver's steps

  /** `pad_record`. */
  method PadRecord(k: Kernel, rec: seq<nat>, len: nat, blocksize: nat) returns (padSize: nat)
    requires Addressable(k.ram, rec) && blocksize > 0 && len + PadSize(len, blocksize) <= |rec|
    modifies k`ram
    ensures padSize == PadSize(len, blocksize) && Addressable(k.ram, rec) && OnlyAt(rec, old(k.ram), k.ram)
    ensures var was := Gather(old(k.ram), rec);
            Gather(k.ram, rec) == was[..len] + Pad(len, blocksize) + was[len + padSize..]
  {
    hide InRam, Distinct, OnlyAt, Gather;
    padSize := blocksize - len % blocksize;
    var pad := new byte[padSize](_ => (padSize - 1) % 256);
    assert pad[..] == Pad(len, blocksize);
    WriteList(k, rec, len, pad[..]);
  }

  /** `verify_tls_record_pad` on the bytes of the record: the length of the padding, or EBADMSG. */
  method VerifyTlsRecordPad(d: seq<byte>) returns (ret: int)
    requires d != []
    ensures ret == match PadLength(d) case Some(n) => n case None => EBADMSG
  {
    var len, padSize := |d|, d[|d| - 1];
    if padSize + 1 > len {
      return EBADMSG;
    }
    var pad := d[len - padSize - 1..];
    assert forall j | 0 <= j <= padSize :: pad[j] == d[len - padSize - 1 + j];
    for i := 0 to padSize
      invariant forall j | 0 <= j < i :: pad[j] == padSize
    {
      if pad[i] != padSize {
        return EBADMSG;
      }
    }
    assert forall i | len - padSize - 1 <= i < len :: d[i] == pad[i - (len - padSize - 1)];
    ret := padSize + 1;
  }

  /** The hash over the additional data and the fragment. */
  method HashRecord(s: Session, auth: seq<byte>, m: seq<byte>, buffer: seq<byte>) returns (output: seq<byte>)
    requires s.Valid() && s.cfg.hash.Some? && FreshHash(s) && |buffer| >= AALG_MAX_RESULT_LEN
    modifies s`hash
    ensures s.Valid() && s.hash == Finished && output == HashOutput(s.cfg.hash.value, auth + m, buffer)
  {
    assert [] + auth == auth && auth + [] == auth;
    if |auth| > 0 {
      s.hash := Absorb(s.hash, auth);
    }
    if |m| > 0 {
      s.hash := Absorb(s.hash, m);
    }
    output := HashFinal(s, buffer);
  }

  /** `tls_auth_n_crypt`, encrypting the first kcop.len bytes of the record.  `buffer` is what
      the digest buffer on the stack holds at first. */
  method TlsEncrypt(s: Session, k: Kernel, kcop: KernelAuthOp, auth: seq<byte>, rec: seq<nat>, buffer: seq<byte>)
    returns (ret: int)
    requires s.Valid() && s.cfg.cipher.Some? && FreshHash(s) && Addressable(k.ram, rec)
    requires |buffer| >= AALG_MAX_RESULT_LEN && (s.cfg.hash.Some? ==> Stack(buffer, kcop.tagLen))
    requires |rec| == DstLen(s.cfg, true, kcop.len, kcop.tagLen)
    modifies s`iv, s`hash, k`ram, kcop`dstLen
    ensures s.Valid() && Addressable(k.ram, rec) && OnlyAt(rec, old(k.ram), k.ram)
    ensures ret == 0 && kcop.dstLen == Written(s.cfg, kcop.len, kcop.tagLen) <= |rec|
    ensures var was, now, n := Gather(old(k.ram), rec), Gather(k.ram, rec), kcop.dstLen;
            var o := Seal(s.cfg, old(s.iv), auth, was[..kcop.len], kcop.tagLen, buffer);
            now[..n] == o.data && now[n..] == was[n..] && s.iv == o.iv
  {
    hide Lawful, LawfulHash, HashOutput, PadSize, Pad, InRam, Distinct, OnlyAt, Gather;
    ReservedCoversWritten(s.cfg, kcop.len, kcop.tagLen);
    var len := TlsPlain(s, k, kcop, auth, rec, buffer);
    PlainLength(s.cfg, auth, Gather(old(k.ram), rec)[..kcop.len], kcop.tagLen, buffer);
    ghost var plain := Gather(k.ram, rec);
    assert plain[0..0 + len] == plain[..len];
    ghost var mid := k.ram;
    ret := CipherInPlace(s, k, true, rec, 0, len);
    OnlyAtTwice(rec, old(k.ram), mid, k.ram);
    kcop.dstLen := len;
  }

  /** The tag and the padding, behind the fragment in the record. */
  method TlsPlain(s: Session, k: Kernel, kcop: KernelAuthOp, auth: seq<byte>, rec: seq<nat>, buffer: seq<byte>)
    returns (len: nat)
    requires s.Valid() && s.cfg.cipher.Some? && FreshHash(s) && Addressable(k.ram, rec)
    requires |buffer| >= AALG_MAX_RESULT_LEN && (s.cfg.hash.Some? ==> Stack(buffer, kcop.tagLen))
    requires Written(s.cfg, kcop.len, kcop.tagLen) <= |rec| && kcop.len <= |rec|
    modifies s`hash, k`ram
    ensures s.Valid() && Addressable(k.ram, rec) && OnlyAt(rec, old(k.ram), k.ram)
    ensures len == Written(s.cfg, kcop.len, kcop.tagLen)
    ensures var was, now := Gather(old(k.ram), rec), Gather(k.ram, rec);
            now[..len] == Plain(s.cfg, auth, was[..kcop.len], kcop.tagLen, buffer) && now[len..] == was[len..]
  {
    hide Lawful, LawfulHash, HashOutput, PadSize, Pad, InRam, Distinct, OnlyAt, Gather;
    NothingChanged(rec, k.ram);
    len := kcop.len;
    if s.cfg.hash.Some? {
      var output := HashRecord(s, auth, Gather(k.ram, rec)[..len], buffer);
      WriteList(k, rec, len, output[..kcop.tagLen]);
      len := len + kcop.tagLen;
    }
    ghost var mid := k.ram;
    if s.cfg.cipher.value.blocksize > 1 {
      var padSize := PadRecord(k, rec, len, s.cfg.cipher.value.blocksize);
      len := len + padSize;
      OnlyAtTwice(rec, old(k.ram), mid, k.ram);
    }
  }

  /** `tls_auth_n_crypt`, decrypting the whole record. */
  method TlsDecrypt(s: Session, k: Kernel, kcop: KernelAuthOp, auth: seq<byte>, rec: seq<nat>, buffer: seq<byte>)
    returns (ret: int)
    requires s.Valid() && s.cfg.cipher.Some? && FreshHash(s) && |buffer| >= AALG_MAX_RESULT_LEN
    requires Addressable(k.ram, rec) && 0 < kcop.len == |rec| == kcop.dstLen
    modifies s`iv, s`hash, k`ram, kcop`dstLen
    ensures s.Valid() && Addressable(k.ram, rec) && OnlyAt(rec, old(k.ram), k.ram)
    ensures Opening(ret, Gather(k.ram, rec), kcop.dstLen) ==
            Open(s.cfg, old(s.iv), auth, Gather(old(k.ram), rec), kcop.tagLen, buffer)
    ensures var t := s.cfg.cipher.value;
            s.iv == if kcop.len % t.blocksize == 0 then t.dec(old(s.iv), Gather(old(k.ram), rec)).iv else old(s.iv)
  {
    hide Lawful, LawfulHash, Checked, InRam, Distinct, OnlyAt, Gather;
    ghost var was := Gather(k.ram, rec);
    assert was[0..0 + kcop.len] == was;
    ret := CipherInPlace(s, k, false, rec, 0, kcop.len);
    if ret == 0 {
      assert Gather(k.ram, rec) == Deciphered(s.cfg, old(s.iv), was);
      ret := TlsCheck(s, kcop, auth, Gather(k.ram, rec), buffer);
    }
  }

  /** The checks of `tls_auth_n_crypt` on the deciphered bytes. */
  method TlsCheck(s: Session, kcop: KernelAuthOp, auth: seq<byte>, d: seq<byte>, buffer: seq<byte>)
    returns (ret: int)
    requires s.Valid() && s.cfg.cipher.Some? && FreshHash(s) && |buffer| >= AALG_MAX_RESULT_LEN
    requires 0 < kcop.len == |d| == kcop.dstLen
    modifies s`hash, kcop`dstLen
    ensures s.Valid() && s.iv == old(s.iv)
    ensures Opening(ret, d, kcop.dstLen) == Checked(s.cfg, auth, d, kcop.tagLen, buffer)
  {
    hide Lawful, LawfulHash, HashOutput, PadLength;
    var fail, len := false, kcop.len;
    if s.cfg.cipher.value.blocksize > 1 {
      ret := VerifyTlsRecordPad(d);
      if ret < 0 {
        fail := true;
      } else {
        len := len - ret;
      }
    }
    if s.cfg.hash.Some? {
      if kcop.tagLen > AALG_MAX_RESULT_LEN || kcop.tagLen > len {
        return EINVAL;
      }
      var received := d[len - kcop.tagLen..len];
      len := len - kcop.tagLen;
      var output := HashRecord(s, auth, d[..len], buffer);
      if received != output[..kcop.tagLen] || fail {
        return EBADMSG;
      }
    }
    kcop.dstLen := len;
    ret := 0;
  }

  /** The call gets as far as reading its additional data. */
  predicate TlsReads(cfg: Config, kcop: KernelAuthOp, authLen: nat) {
    (kcop.op == COP_ENCRYPT || kcop.op == COP_DECRYPT) && cfg.cipher.Some? && authLen <= PAGE_SIZE
  }

  /** The call gets as far as mapping its record. */
  predicate TlsMaps(cfg: Config, kcop: KernelAuthOp, authLen: nat, auth: Option<seq<byte>>, dst: nat, dstLen: nat) {
    TlsReads(cfg, kcop, authLen) && auth.Some? && dst != 0 && dstLen > 0
  }

  /** `crypto_auth_run` for a TLS operation on user memory.  `auth` is the additional data, None
      if it cannot be read. */
  method TlsRun(s: Session, k: Kernel, kcop: KernelAuthOp, dst: nat, authLen: nat, auth: Option<seq<byte>>,
                got: int, buffer: seq<byte>) returns (ret: int)
    requires s.Valid() && s.io.Valid() && kcop.Valid() && |buffer| >= AALG_MAX_RESULT_LEN
    requires s.cfg.cipher.Some? ==> kcop.dstLen == DstLen(s.cfg, kcop.op == COP_ENCRYPT, kcop.len, kcop.tagLen)
    requires kcop.op == COP_ENCRYPT && s.cfg.hash.Some? ==> Stack(buffer, kcop.tagLen)
    requires auth.Some? ==> |auth.value| == authLen
    requires Addressable(k.ram, Range(k.frame, dst, kcop.dstLen)) && got <= PageCount(dst, kcop.dstLen)
    modifies s`iv, s`hash, s.io, s.io.pages, s.io.sg, k`ram, k`log, kcop`dstLen, kcop`iv
    ensures s.Valid() && s.io.Valid() && kcop.Valid()
    ensures var rec := Range(k.frame, dst, old(kcop.dstLen));
            Addressable(k.ram, rec) && OnlyAt(rec, old(k.ram), k.ram)
    ensures var n := old(kcop.dstLen);
            var rec := Range(k.frame, dst, n);
            var maps := TlsMaps(s.cfg, kcop, authLen, auth, dst, n);
            var iv := Overlay(old(s.iv), old(kcop.iv), IvBytes(s.cfg, kcop.ivlen));
            && (Balanced(old(k.log), k.log) <==> !(maps && 0 < got < PageCount(dst, n)))
            && (!(maps && got == PageCount(dst, n)) ==>
                  k.ram == old(k.ram)
                  && ret == if TlsReads(s.cfg, kcop, authLen) && auth.None? then EFAULT else EINVAL)
            && (maps && got == PageCount(dst, n) && kcop.op == COP_ENCRYPT ==>
                  && ret == 0 && kcop.dstLen <= n
                  && var was, now := Gather(old(k.ram), rec), Gather(k.ram, rec);
                  && now[..kcop.dstLen] == Seal(s.cfg, iv, auth.value, was[..kcop.len], kcop.tagLen, buffer).data
                  && Sealed(s.cfg, iv, auth.value, was[..kcop.len], kcop.tagLen, buffer, now[..kcop.dstLen], s.iv)
                  && now[kcop.dstLen..] == was[kcop.dstLen..])
            && (maps && got == PageCount(dst, n) && kcop.op == COP_DECRYPT ==>
                  var was, o := Gather(old(k.ram), rec), Opening(ret, Gather(k.ram, rec), kcop.dstLen);
                  && o == Open(s.cfg, iv, auth.value, was, kcop.tagLen, buffer)
                  && Unsealed(s.cfg, iv, auth.value, was, kcop.tagLen, buffer, o, s.iv))
    ensures kcop.iv == if ret == 0 then Overlay(old(kcop.iv), s.iv, IvBytes(s.cfg, kcop.ivlen)) else old(kcop.iv)
  {
    hide Lawful, LawfulHash, Overlay, Seal, Open, Gather, InRam, Distinct, OnlyAt, Range, List, PageCount, Frames, Pins;
    hide Release, Held, Flushed, Balanced, PutsPinned, Sealed, Unsealed;
    NothingChanged(Range(k.frame, dst, kcop.dstLen), k.ram);
    LengthOfRange(k.frame, dst, kcop.dstLen);
    NothingLogged(k.log);
    ret := AuthPrepare(s, kcop);
    if ret != 0 {
      return;
    }
    if authLen > PAGE_SIZE {
      return EINVAL;
    }
    if auth.None? {
      return EFAULT;
    }
    ret := GetUserbufTls(s.io, k, dst, kcop.dstLen, got);
    if ret != 0 {
      PartlyPinned(old(k.log), k.log, k.frame, dst, got);
      return;
    }
    var rec := List(s.io.sg[..], 0);
    ghost var frames, iv, was := s.io.pages[..s.io.usedPages], s.iv, Gather(k.ram, rec);
    if kcop.op == COP_ENCRYPT {
      ret := TlsEncrypt(s, k, kcop, auth.value, rec, buffer);
      SealMeans(s.cfg, iv, auth.value, was[..kcop.len], kcop.tagLen, buffer);
    } else {
      ret := TlsDecrypt(s, k, kcop, auth.value, rec, buffer);
      OpenMeans(s.cfg, iv, auth.value, was, kcop.tagLen, buffer, s.iv);
    }
    ReleaseUserPages(s.io, k);
    ReleaseBalanced(old(k.log), k.log, frames, 0, k.reserved);
    if ret == 0 {
      kcop.iv := Overlay(kcop.iv, s.iv, IvBytes(s.cfg, kcop.ivlen));
    }
  }
}

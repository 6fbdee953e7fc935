/** Fixed-width integers, length-prefixed chunks, associated data and transcripts
    (core/envelope.go, core/keyschedule.go). */
module Encoding {

  type Byte = x: int | 0 <= x < 256

  const UINT64: nat := 0x1_0000_0000_0000_0000

  ghost function Pow256(k: nat): nat { if k == 0 then 1 else 256 * Pow256(k - 1) }

  /** The low `k` bytes of `n`, most significant first. */
  function BigEndian(n: nat, k: nat): (bytes: seq<Byte>)
    ensures |bytes| == k
  {
    if k == 0 then [] else BigEndian(n / 256, k - 1) + [n % 256]
  }

  lemma {:induction false} BigEndianInjective(a: nat, b: nat, k: nat)
    requires a < Pow256(k) && b < Pow256(k) && BigEndian(a, k) == BigEndian(b, k)
    ensures a == b
  {
    if k != 0 {
      var pa, pb := BigEndian(a / 256, k - 1), BigEndian(b / 256, k - 1);
      assert BigEndian(a, k)[k - 1] == a % 256 && BigEndian(b, k)[k - 1] == b % 256;
      assert BigEndian(a, k)[..k - 1] == pa && BigEndian(b, k)[..k - 1] == pb;
      BigEndianInjective(a / 256, b / 256, k - 1);
    }
  }

  /** The value of a byte string read most significant first. */
  ghost function FromBigEndian(s: seq<Byte>): nat {
    if s == [] then 0 else 256 * FromBigEndian(s[..|s| - 1]) + s[|s| - 1]
  }

  /** A field that is wide enough reads back as the number written. */
  lemma {:induction false} BigEndianValue(n: nat, k: nat)
    requires n < Pow256(k)
    ensures FromBigEndian(BigEndian(n, k)) == n
  {
    if k != 0 {
      var s := BigEndian(n, k);
      BigEndianValue(n / 256, k - 1);
      assert s[..k - 1] == BigEndian(n / 256, k - 1) && s[k - 1] == n % 256;
    }
  }

  lemma Widths()
    ensures Pow256(1) == 0x100 && Pow256(4) == 0x1_0000_0000 && Pow256(8) == UINT64
  {
    assert Pow256(2) == 0x1_0000;
    assert Pow256(3) == 0x100_0000;
    assert Pow256(5) == 0x100_0000_0000;
    assert Pow256(6) == 0x1_0000_0000_0000;
    assert Pow256(7) == 0x100_0000_0000_0000;
  }

  /** A chunk behind its four-byte length; the length field holds 32 bits only. */
  function LengthPrefixed(b: seq<Byte>): (r: seq<Byte>)
    ensures |r| == 4 + |b| && r[..4] == BigEndian(|b|, 4) && r[4..] == b
  {
    BigEndian(|b|, 4) + b
  }

  ghost predicate Short(b: seq<Byte>) { |b| < 0x1_0000_0000 }

  /** A prefixed chunk is self-delimiting: whatever follows, the chunk and the rest are determined. */
  lemma PrefixedUnique(a: seq<Byte>, x: seq<Byte>, b: seq<Byte>, y: seq<Byte>)
    requires Short(a) && Short(b) && LengthPrefixed(a) + x == LengthPrefixed(b) + y
    ensures a == b && x == y
  {
    var s := LengthPrefixed(a) + x;
    Widths();
    assert s[..4] == BigEndian(|a|, 4);
    assert s[..4] == BigEndian(|b|, 4);
    BigEndianInjective(|a|, |b|, 4);
    assert s[4..4 + |a|] == a && s[4..4 + |a|] == b;
    assert s[4 + |a|..] == x && s[4 + |a|..] == y;
  }

  // ---------------------------------------------------------------- transcripts

  /** What a transcript hash is computed over. */
  function Framed(chunks: seq<seq<Byte>>): seq<Byte> {
    if chunks == [] then [] else LengthPrefixed(chunks[0]) + Framed(chunks[1..])
  }

  /** The bytes `a` stand in `s` from position `i` on. */
  ghost predicate StandsAt(s: seq<Byte>, i: nat, a: seq<Byte>) {
    i + |a| <= |s| && s[i..i + |a|] == a
  }

  lemma StandsAfter(head: seq<Byte>, s: seq<Byte>, i: nat, a: seq<Byte>)
    requires StandsAt(s, i, a)
    ensures StandsAt(head + s, |head| + i, a)
  {
  }

  lemma {:induction false} ChunkStands(chunks: seq<seq<Byte>>, i: nat)
    requires i < |chunks|
    ensures StandsAt(Framed(chunks), |Framed(chunks[..i])|, LengthPrefixed(chunks[i]))
  {
    var rest, head := chunks[1..], LengthPrefixed(chunks[0]);
    if i > 0 {
      ChunkStands(rest, i - 1);
      assert chunks[..i][1..] == rest[..i - 1];
      StandsAfter(head, Framed(rest), |Framed(rest[..i - 1])|, LengthPrefixed(chunks[i]));
    }
  }

  lemma SubSlice(s: seq<Byte>, i: nat, j: nat, p: nat, q: nat)
    requires i <= j <= |s| && p <= q <= j - i
    ensures s[i..j][p..q] == s[i + p..i + q]
  {
    var x, y := s[i..j][p..q], s[i + p..i + q];
    forall k | 0 <= k < |x|
      ensures x[k] == y[k]
    {
      assert x[k] == s[i..j][p + k] == s[i + (p + k)];
      assert y[k] == s[i + p + k];
    }
  }

  lemma TwoParts(s: seq<Byte>, i: nat, a: seq<Byte>, b: seq<Byte>)
    requires StandsAt(s, i, a + b)
    ensures StandsAt(s, i, a) && StandsAt(s, i + |a|, b)
  {
    var t := s[i..i + |a| + |b|];
    assert t == a + b && t[0..|a|] == a && t[|a|..|a| + |b|] == b;
    SubSlice(s, i, i + |a| + |b|, 0, |a|);
    SubSlice(s, i, i + |a| + |b|, |a|, |a| + |b|);
  }

  /** A transcript is each chunk in turn behind the big-endian value of its length. */
  lemma FramedLayout(chunks: seq<seq<Byte>>, i: nat)
    requires i < |chunks| && Short(chunks[i])
    ensures var before := |Framed(chunks[..i])|;
            && before + 4 + |chunks[i]| <= |Framed(chunks)|
            && FromBigEndian(Framed(chunks)[before..before + 4]) == |chunks[i]|
            && Framed(chunks)[before + 4..before + 4 + |chunks[i]|] == chunks[i]
  {
    ChunkStands(chunks, i);
    Widths();
    BigEndianValue(|chunks[i]|, 4);
    TwoParts(Framed(chunks), |Framed(chunks[..i])|, BigEndian(|chunks[i]|, 4), chunks[i]);
  }

  lemma {:induction false} FramedAppend(chunks: seq<seq<Byte>>, c: seq<Byte>)
    ensures Framed(chunks + [c]) == Framed(chunks) + LengthPrefixed(c)
  {
    if chunks == [] {
      assert [c][1..] == [];
    } else {
      assert (chunks + [c])[1..] == chunks[1..] + [c];
      FramedAppend(chunks[1..], c);
    }
  }

  /** The bytes written into the hasher, chunk by chunk. */
  method TranscriptPreimage(chunks: seq<seq<Byte>>) returns (written: seq<Byte>)
    ensures written == Framed(chunks)
  {
    written := [];
    for i := 0 to |chunks|
      invariant written == Framed(chunks[..i])
    {
      assert chunks[..i + 1] == chunks[..i] + [chunks[i]];
      FramedAppend(chunks[..i], chunks[i]);
      written := written + BigEndian(|chunks[i]|, 4);
      written := written + chunks[i];
    }
    assert chunks[..|chunks|] == chunks;
  }

  /** A list of chunks is uniquely decodable from its framing, whatever the numbers of chunks. */
  lemma {:induction false} FramedInjective(a: seq<seq<Byte>>, b: seq<seq<Byte>>)
    requires (forall c :: c in a ==> Short(c)) && (forall c :: c in b ==> Short(c))
    requires Framed(a) == Framed(b)
    ensures a == b
    decreases |a|
  {
    if a != [] && b != [] {
      PrefixedUnique(a[0], Framed(a[1..]), b[0], Framed(b[1..]));
      FramedInjective(a[1..], b[1..]);
      assert a == [a[0]] + a[1..] && b == [b[0]] + b[1..];
    }
  }

  /** Hello and full transcripts never hash the same bytes, and each determines its inputs. */
  lemma TranscriptsDisjoint(name: seq<Byte>, hello: seq<Byte>, ack: seq<Byte>,
                            name': seq<Byte>, hello': seq<Byte>, ack': seq<Byte>)
    requires Short(name) && Short(hello) && Short(ack) && Short(name') && Short(hello') && Short(ack')
    ensures Framed([name, hello]) != Framed([name', hello', ack'])
    ensures Framed([name, hello]) == Framed([name', hello']) <==> name == name' && hello == hello'
    ensures Framed([name, hello, ack]) == Framed([name', hello', ack'])
            <==> name == name' && hello == hello' && ack == ack'
  {
    if Framed([name, hello]) == Framed([name', hello', ack']) {
      FramedInjective([name, hello], [name', hello', ack']);
      assert false;
    }
    var h, h' := [name, hello], [name', hello'];
    if Framed(h) == Framed(h') {
      FramedInjective(h, h');
      assert h[0] == h'[0] && h[1] == h'[1];
    }
    var f, f' := [name, hello, ack], [name', hello', ack'];
    if Framed(f) == Framed(f') {
      FramedInjective(f, f');
      assert f[0] == f'[0] && f[1] == f'[1] && f[2] == f'[2];
    }
  }

  // ---------------------------------------------------------------- associated data

  /** What follows the session id: epoch and compression are cut to one byte each. */
  function ADTail(keyEpoch: nat, seqNo: nat, comp: nat, profile: seq<Byte>): seq<Byte> {
    [keyEpoch % 256] + BigEndian(seqNo, 8) + [comp % 256] + LengthPrefixed(profile)
  }

  /** The associated data of an envelope; the flags byte is always zero. */
  function EnvelopeAD(frameType: Byte, sessionID: seq<Byte>, keyEpoch: nat, seqNo: nat, comp: nat,
                      profile: seq<Byte>): seq<Byte>
  {
    [frameType, 0] + (LengthPrefixed(sessionID) + ADTail(keyEpoch, seqNo, comp, profile))
  }

  /** Where each bound field stands: type, zero flags, session, epoch, number, compression, profile. */
  lemma ADLayout(t: Byte, sid: seq<Byte>, e: nat, n: nat, c: nat, p: seq<Byte>)
    requires Short(sid) && Short(p) && n < UINT64
    ensures var ad, at := EnvelopeAD(t, sid, e, n, c, p), 6 + |sid|;
            && |ad| == at + 14 + |p| && ad[0] == t && ad[1] == 0
            && FromBigEndian(ad[2..6]) == |sid| && ad[6..at] == sid
            && ad[at] == e % 256 && FromBigEndian(ad[at + 1..at + 9]) == n && ad[at + 9] == c % 256
            && FromBigEndian(ad[at + 10..at + 14]) == |p| && ad[at + 14..] == p
  {
    var ad, at, tail := EnvelopeAD(t, sid, e, n, c, p), 6 + |sid|, ADTail(e, n, c, p);
    Widths();
    BigEndianValue(|sid|, 4);
    BigEndianValue(|p|, 4);
    BigEndianValue(n, 8);
    var lp, lq := LengthPrefixed(sid), LengthPrefixed(p);
    assert ad[2..6] == lp[..4] && ad[6..at] == lp[4..] && ad[at..] == tail;
    assert tail[1..9] == BigEndian(n, 8) && tail[10..] == lq;
    assert ad[at + 1..at + 9] == tail[1..9];
    assert ad[at + 10..at + 14] == lq[..4] && ad[at + 14..] == lq[4..];
  }

  lemma AfterHeader(t: Byte, x: seq<Byte>, t': Byte, x': seq<Byte>)
    requires [t, 0] + x == [t', 0] + x'
    ensures t == t' && x == x'
  {
    assert ([t, 0] + x)[0] == t && ([t', 0] + x')[0] == t';
    assert ([t, 0] + x)[2..] == x && ([t', 0] + x')[2..] == x';
  }

  lemma TailInjective(e: nat, n: nat, c: nat, p: seq<Byte>, e': nat, n': nat, c': nat, p': seq<Byte>)
    requires Short(p) && Short(p') && n < UINT64 && n' < UINT64 && ADTail(e, n, c, p) == ADTail(e', n', c', p')
    ensures e % 256 == e' % 256 && n == n' && c % 256 == c' % 256 && p == p'
  {
    var s, s' := ADTail(e, n, c, p), ADTail(e', n', c', p');
    assert s[0] == e % 256 && s'[0] == e' % 256;
    assert s[1..9] == BigEndian(n, 8) && s'[1..9] == BigEndian(n', 8);
    assert s[9] == c % 256 && s'[9] == c' % 256;
    assert s[10..] == LengthPrefixed(p) + [] && s'[10..] == LengthPrefixed(p') + [];
    Widths();
    BigEndianInjective(n, n', 8);
    PrefixedUnique(p, [], p', []);
  }

  /**
    Two envelopes have equal associated data if and only if they agree on every field that is bound:
    type, session, sequence number, profile name, and the low bytes of epoch and compression.
  */
  lemma EnvelopeADInjective(t: Byte, sid: seq<Byte>, e: nat, n: nat, c: nat, p: seq<Byte>,
                            t': Byte, sid': seq<Byte>, e': nat, n': nat, c': nat, p': seq<Byte>)
    requires Short(sid) && Short(sid') && Short(p) && Short(p') && n < UINT64 && n' < UINT64
    ensures EnvelopeAD(t, sid, e, n, c, p) == EnvelopeAD(t', sid', e', n', c', p')
            <==> t == t' && sid == sid' && e % 256 == e' % 256 && n == n' && c % 256 == c' % 256 && p == p'
  {
    if EnvelopeAD(t, sid, e, n, c, p) == EnvelopeAD(t', sid', e', n', c', p') {
      var rest, rest' := ADTail(e, n, c, p), ADTail(e', n', c', p');
      AfterHeader(t, LengthPrefixed(sid) + rest, t', LengthPrefixed(sid') + rest');
      PrefixedUnique(sid, rest, sid', rest');
      TailInjective(e, n, c, p, e', n', c', p');
    }
  }
}

/** Canonical varints and the frame stream (core/frame.go). */
module Frame {
  import opened Basics
  import opened Encoding

  const MAX_FRAME_BYTES: nat := 0x100_0000
  const MAX_VARINT_LEN: nat := 10

  // ---------------------------------------------------------------- varints

  /** The shortest base-128 encoding, low group first. */
  function Varint(v: nat): (s: seq<Byte>)
    ensures s != []
  {
    if v < 128 then [v] else [v % 128 + 128] + Varint(v / 128)
  }

  /** All bytes but the last carry the continuation bit. */
  ghost predicate Terminated(s: seq<Byte>) {
    s != [] && s[|s| - 1] < 128 && forall i :: 0 <= i < |s| - 1 ==> s[i] >= 128
  }

  function Value(s: seq<Byte>): nat {
    if s == [] then 0 else s[0] % 128 + 128 * Value(s[1..])
  }

  /** d * 128^k. */
  function Top(d: nat, k: nat): nat { if k == 0 then d else 128 * Top(d, k - 1) }

  lemma {:induction false} TopMonotone(d: nat, e: nat, k: nat)
    requires d <= e
    ensures Top(d, k) <= Top(e, k)
  {
    if k != 0 {
      TopMonotone(d, e, k - 1);
    }
  }

  lemma {:induction false} TopGrows(j: nat, k: nat)
    requires j <= k
    ensures Top(1, j) <= Top(1, k)
    decreases k
  {
    if j < k {
      TopGrows(j, k - 1);
    }
  }

  lemma TopTwoNine()
    ensures Top(2, 9) == UINT64 && Top(1, 10) > UINT64
  {
    assert Top(2, 1) == 0x100 && Top(2, 2) == 0x8000 && Top(2, 3) == 0x40_0000 && Top(2, 4) == 0x2000_0000;
    assert Top(2, 5) == 0x10_0000_0000 && Top(2, 6) == 0x800_0000_0000 && Top(2, 7) == 0x4_0000_0000_0000;
    assert Top(2, 8) == 0x200_0000_0000_0000;
    assert Top(1, 1) == 0x80 && Top(1, 2) == 0x4000 && Top(1, 3) == 0x20_0000 && Top(1, 4) == 0x1000_0000;
    assert Top(1, 5) == 0x8_0000_0000 && Top(1, 6) == 0x400_0000_0000 && Top(1, 7) == 0x2_0000_0000_0000;
    assert Top(1, 8) == 0x100_0000_0000_0000 && Top(1, 9) == 0x8000_0000_0000_0000;
  }

  /** The value of a terminated string lies between its last group's scale and the next. */
  lemma {:induction false} ValueBounds(s: seq<Byte>)
    requires Terminated(s)
    ensures Top(s[|s| - 1], |s| - 1) <= Value(s) < Top(s[|s| - 1] + 1, |s| - 1)
  {
    if |s| > 1 {
      assert s[1..][|s| - 2] == s[|s| - 1];
      ValueBounds(s[1..]);
    }
  }

  ghost predicate Canonical(s: seq<Byte>) { Terminated(s) && (|s| == 1 || s[|s| - 1] > 0) }

  lemma CanonicalPositive(s: seq<Byte>)
    requires Terminated(s) && s[|s| - 1] > 0
    ensures Value(s) >= 1
  {
    ValueBounds(s);
    TopMonotone(1, s[|s| - 1], |s| - 1);
    TopGrows(0, |s| - 1);
  }

  lemma Group(b: Byte, w: nat)
    requires b >= 128 && w >= 1
    ensures var v := b % 128 + 128 * w; v >= 128 && v % 128 + 128 == b && v / 128 == w
  {
  }

  /** The reader's shortness test is the test for a non-zero last group. */
  lemma ShortTest(s: seq<Byte>)
    requires Terminated(s)
    ensures Value(s) >= Top(1, |s| - 1) <==> s[|s| - 1] > 0
  {
    ValueBounds(s);
    if s[|s| - 1] > 0 {
      TopMonotone(1, s[|s| - 1], |s| - 1);
    }
  }

  /** One more low group in front: the encoding grows by exactly that byte. */
  lemma VarintGroup(b: Byte, w: nat)
    requires b >= 128 && w >= 1
    ensures Varint(b % 128 + 128 * w) == [b] + Varint(w)
  {
    Group(b, w);
  }

  /** A canonical string is the encoding of its value. */
  lemma {:induction false} CanonicalIsVarint(s: seq<Byte>)
    requires Canonical(s)
    ensures Varint(Value(s)) == s
  {
    var t := s[1..];
    assert Value(s) == s[0] % 128 + 128 * Value(t);
    assert s == [s[0]] + t;
    if t != [] {
      assert Canonical(t) by { assert t[|t| - 1] == s[|s| - 1]; }
      CanonicalIsVarint(t);
      CanonicalPositive(t);
      VarintGroup(s[0], Value(t));
    }
  }

  lemma {:induction false} ScaleUp(k: nat)
    ensures Top(128, k) == Top(1, k + 1)
  {
    if k != 0 {
      ScaleUp(k - 1);
    }
  }

  /** A terminated string of at most k + 1 bytes whose byte k, if any, is below 2 stays below 2 * 128^k. */
  lemma ValueFits(s: seq<Byte>, k: nat)
    requires Terminated(s) && |s| <= k + 1 && (|s| == k + 1 ==> s[k] < 2)
    ensures Value(s) < Top(2, k)
  {
    ValueBounds(s);
    if |s| == k + 1 {
      TopMonotone(s[k] + 1, 2, k);
    } else {
      TopMonotone(s[|s| - 1] + 1, 128, |s| - 1);
      ScaleUp(|s| - 1);
      TopGrows(|s|, k);
      TopMonotone(1, 2, k);
    }
  }

  /** Encodings are canonical and evaluate back to what was encoded. */
  lemma {:induction false} VarintIsCanonical(v: nat)
    ensures Canonical(Varint(v)) && Value(Varint(v)) == v
  {
    if v >= 128 {
      var t := Varint(v / 128);
      VarintIsCanonical(v / 128);
      assert Varint(v)[1..] == t && Varint(v)[|t|] == t[|t| - 1];
      if |t| == 1 {
        assert t[0] == Value(t) by { assert t[1..] == []; }
      }
    }
  }

  /** Sixty-four bits fit in ten bytes, the tenth being at most 1. */
  lemma VarintFits(v: nat)
    requires v < UINT64
    ensures |Varint(v)| <= 10 && (|Varint(v)| == 10 ==> Varint(v)[9] < 2)
  {
    var s := Varint(v);
    VarintIsCanonical(v);
    ValueBounds(s);
    TopTwoNine();
    if |s| > 10 {
      TopMonotone(1, s[|s| - 1], |s| - 1);
      TopGrows(10, |s| - 1);
    } else if |s| == 10 && s[9] >= 2 {
      TopMonotone(2, s[9], 9);
    }
  }

  /** Terminated strings are prefix-free. */
  lemma TerminatedPrefix(s: seq<Byte>, t: seq<Byte>, rest: seq<Byte>)
    requires Terminated(s) && Terminated(t) && s <= rest && t <= rest
    ensures s == t
  {
    assert s == rest[..|s|] && t == rest[..|t|];
    assert rest[|s| - 1] < 128 && forall i :: 0 <= i < |s| - 1 ==> rest[i] >= 128;
    assert rest[|t| - 1] < 128 && forall i :: 0 <= i < |t| - 1 ==> rest[i] >= 128;
  }

  lemma AtLeast(d: nat, k: nat)
    requires k >= 1
    ensures d * k >= d
  {
    assert d * k == d + d * (k - 1);
  }

  lemma Quotient(v: nat, d: nat, a: nat, r: nat)
    requires d > 0 && r < d && v == d * a + r
    ensures v / d == a
  {
    var q, m := v / d, v % d;
    assert v == d * q + m;
    assert d * (a - q) == m - r && d * (q - a) == r - m;
    if q < a {
      AtLeast(d, a - q);
    } else if q > a {
      AtLeast(d, q - a);
    }
  }

  lemma DivideTwice(v: nat, d: nat)
    requires d > 0
    ensures v / 128 / d == v / (128 * d)
  {
    var q, r := v / 128, v % 128;
    var a, b := q / d, q % d;
    assert q == d * a + b && v == 128 * q + r;
    assert v == 128 * d * a + (128 * b + r);
    assert 0 <= 128 * b + r < 128 * d;
    Quotient(v, 128 * d, a, 128 * b + r);
  }

  /** Byte `i` holds the `i`-th group of seven bits, lowest first, and says whether more follow. */
  lemma {:induction false} VarintGroups(v: nat, i: nat)
    requires i < |Varint(v)|
    ensures Top(1, i) > 0 && Varint(v)[i] % 128 == v / Top(1, i) % 128
    ensures Varint(v)[i] >= 128 <==> i < |Varint(v)| - 1
  {
    if i > 0 {
      VarintGroups(v / 128, i - 1);
      DivideTwice(v, Top(1, i - 1));
    }
  }

  method PutVarint(v: nat) returns (s: seq<Byte>)
    requires v < UINT64
    ensures s == Varint(v)
  {
    var w := v;
    s := [];
    while w >= 128
      invariant s + Varint(w) == Varint(v)
    {
      assert s + Varint(w) == s + [w % 128 + 128] + Varint(w / 128);
      s := s + [w % 128 + 128];
      w := w / 128;
    }
    s := s + [w];
  }

  /** The protobuf library's decoder on a terminated string: it rejects what overflows 64 bits. */
  function ConsumeVarint(s: seq<Byte>): Option<nat> {
    if |s| > 10 || (|s| == 10 && s[9] >= 2) then None else Some(Value(s))
  }

  datatype ReadError = ShortHeader | BadFlags | BadLength | TooLarge | ShortPayload

  datatype Fr = Fr(typ: Byte, payload: seq<Byte>)

  datatype ReadResult = Ok(frame: Fr) | Err(error: ReadError)

  datatype HeaderResult = Header(typ: Byte, length: nat) | BadHeader(error: ReadError)

  function HeaderBytes(typ: Byte, length: nat): seq<Byte> { [typ, 0] + Varint(length) }

  function FrameBytes(f: Fr): seq<Byte> { HeaderBytes(f.typ, |f.payload|) + f.payload }

  function Limit(lim: nat): nat { if lim == 0 then MAX_FRAME_BYTES else lim }

  // ---------------------------------------------------------------- the stream

  lemma TakeSlice(s: seq<Byte>, i: nat, n: nat)
    requires i + n <= |s|
    ensures s[i..][..n] == s[i..i + n]
  {
  }

  lemma JoinSlices(s: seq<Byte>, i: nat, j: nat, k: nat)
    requires i <= j <= k <= |s|
    ensures s[i..k] == s[i..j] + s[j..k]
  {
  }

  lemma PayloadOf(f: Fr, after: seq<Byte>)
    requires FrameBytes(f) <= HeaderBytes(f.typ, |f.payload|) + after
    ensures f.payload <= after
  {
    var b, h := FrameBytes(f), HeaderBytes(f.typ, |f.payload|);
    assert b[|h|..] == f.payload;
    assert (h + after)[|h|..|b|] == after[..|f.payload|];
    assert b == (h + after)[..|b|];
  }

  /** A string of continuation bytes that ended early, or ran to ten bytes, starts no encoding. */
  lemma NoPrefix(s: seq<Byte>, rest: seq<Byte>)
    requires s <= rest && (forall k :: 0 <= k < |s| ==> s[k] >= 128) && (|s| == |rest| || |s| >= 10)
    ensures forall w: nat :: w < UINT64 ==> !(Varint(w) <= rest)
  {
    forall w: nat | w < UINT64
      ensures !(Varint(w) <= rest)
    {
      VarintIsCanonical(w);
      VarintFits(w);
    }
  }

  lemma Fits64(s: seq<Byte>)
    requires Terminated(s) && ConsumeVarint(s).Some?
    ensures Value(s) < UINT64
  {
    ValueFits(s, 9);
    TopTwoNine();
  }

  /** What the decoder and the shortness test accept is the encoding of a 64-bit value. */
  lemma AcceptsSound(s: seq<Byte>)
    requires Terminated(s) && |s| <= 10 && ConsumeVarint(s).Some? && (|s| == 1 || Value(s) >= Top(1, |s| - 1))
    ensures Value(s) < UINT64 && Varint(Value(s)) == s
  {
    ShortTest(s);
    CanonicalIsVarint(s);
    Fits64(s);
  }

  /** ... and every such encoding is accepted. */
  lemma AcceptsComplete(s: seq<Byte>, rest: seq<Byte>, w: nat)
    requires Terminated(s) && s <= rest && w < UINT64 && Varint(w) <= rest
    ensures ConsumeVarint(s) == Some(w) && (|s| == 1 || w >= Top(1, |s| - 1))
  {
    VarintIsCanonical(w);
    VarintFits(w);
    TerminatedPrefix(s, Varint(w), rest);
    ShortTest(s);
  }

  /** Both together: the two tests pick out exactly the encoding of a 64-bit value. */
  lemma AcceptsExactly(s: seq<Byte>, rest: seq<Byte>)
    requires Terminated(s) && |s| <= 10 && s <= rest
    ensures ConsumeVarint(s).Some? && (|s| == 1 || Value(s) >= Top(1, |s| - 1)) ==>
              Value(s) < UINT64 && Varint(Value(s)) == s
    ensures forall w: nat :: w < UINT64 && Varint(w) <= rest ==>
              ConsumeVarint(s) == Some(w) && (|s| == 1 || w >= Top(1, |s| - 1))
  {
    if ConsumeVarint(s).Some? && (|s| == 1 || Value(s) >= Top(1, |s| - 1)) {
      AcceptsSound(s);
    }
    forall w: nat | w < UINT64 && Varint(w) <= rest
      ensures ConsumeVarint(s) == Some(w) && (|s| == 1 || w >= Top(1, |s| - 1))
    {
      AcceptsComplete(s, rest, w);
    }
  }

  lemma HeaderOf(f: Fr, rest: seq<Byte>)
    requires FrameBytes(f) <= rest
    ensures |rest| >= 2 && rest[0] == f.typ && rest[1] == 0 && Varint(|f.payload|) <= rest[2..]
    ensures |rest| >= 2 + |Varint(|f.payload|)| + |f.payload|
    ensures rest[2 + |Varint(|f.payload|)|..][..|f.payload|] == f.payload
  {
    var h := 2 + |Varint(|f.payload|)|;
    var b := FrameBytes(f);
    assert b == rest[..|b|];
    assert b[2..h] == Varint(|f.payload|) && b[h..] == f.payload;
    assert rest[2..h] == b[2..h] && rest[2..][..h - 2] == rest[2..h];
    assert rest[h..][..|f.payload|] == rest[h..|b|] && rest[h..|b|] == b[h..];
  }

  /** What a writer takes that has room for so many bytes. */
  function Fit(s: seq<Byte>, room: nat): (t: seq<Byte>)
    ensures t <= s && |t| == Min(|s|, room)
  {
    s[..Min(|s|, room)]
  }

  lemma FitJoin(a: seq<Byte>, b: seq<Byte>, room: nat)
    ensures Fit(a + b, room) == if room < |a| then Fit(a, room) else a + Fit(b, room - |a|)
  {
  }

  /** The reader fails once, after this many bytes of a payload of `n` bytes. */
  predicate Interrupted(fault: Option<nat>, n: nat) { fault.Some? && fault.value < n }

  class Stream {
    var data: seq<Byte>
    var pos: nat

    ghost predicate Valid()
      reads this
    {
      pos <= |data|
    }

    ghost function Rest(): seq<Byte>
      requires Valid()
      reads this
    {
      data[pos..]
    }

    constructor (data: seq<Byte>)
      ensures Valid() && this.data == data && pos == 0
    {
      this.data, pos := data, 0;
    }

    /** Writes as much as the writer takes, and fails on a short write or a reported error. */
    method WriteFull(p: seq<Byte>, room: nat, error: bool) returns (ok: bool, left: nat)
      modifies this`data
      ensures ok == (|p| <= room && !error) && left == room - |Fit(p, room)|
      ensures data == old(data) + Fit(p, room)
    {
      var taken := Fit(p, room);
      data := data + taken;
      return |taken| == |p| && !error, room - |taken|;
    }

    /** Two parts in turn; the second is not attempted when the first fails. */
    method WriteBoth(a: seq<Byte>, b: seq<Byte>, room: nat, error: bool) returns (ok: bool, left: nat)
      modifies this`data
      ensures ok == (|a| + |b| <= room && !error) && (ok ==> left == room - |a| - |b|)
      ensures data == old(data) + Fit(a + b, room)
    {
      FitJoin(a, b, room);
      ghost var before := data;
      ok, left := WriteFull(a, room, false);
      if !ok { return; }
      assert data == before + a;
      ok, left := WriteFull(b, left, error);
      assert data == before + (a + Fit(b, room - |a|));
    }

    /**
      Appends a frame, or refuses reserved flags and oversized payloads without writing anything.
      A writer that takes only `room` more bytes leaves exactly that much of the frame behind; it may
      also report an error after taking everything. Either failure is passed on.
    */
    method Write(typ: Byte, flags: Byte, payload: seq<Byte>, room: nat, error: bool) returns (ok: bool)
      modifies this`data
      ensures var f := FrameBytes(Fr(typ, payload));
              var valid := flags == 0 && |payload| <= MAX_FRAME_BYTES;
              && ok == (valid && |f| <= room && !error)
              && data == old(data) + if valid then Fit(f, room) else []
    {
      if flags != 0 || |payload| > MAX_FRAME_BYTES { return false; }
      ghost var before, h := data, HeaderBytes(typ, |payload|);
      FitJoin(h, payload, room);
      var left: nat;
      var len := PutVarint(|payload|);
      ok, left := WriteBoth([typ, flags], len, room, error && |payload| == 0);
      if !ok { return; }
      assert data == before + h;
      if |payload| > 0 {
        ok, left := WriteFull(payload, left, error);
        assert data == before + (h + Fit(payload, room - |h|));
      }
    }

    /** Bytes up to the first one below 128, of which there are at most ten. */
    method ScanVarint() returns (encoded: Option<seq<Byte>>)
      requires Valid()
      modifies this`pos
      ensures Valid() && old(pos) <= pos
      ensures encoded.Some? ==>
                && |encoded.value| <= MAX_VARINT_LEN && Terminated(encoded.value)
                && encoded.value <= old(Rest()) && encoded.value == data[old(pos)..pos]
      ensures encoded.None? ==> forall w: nat :: w < UINT64 ==> !(Varint(w) <= old(Rest()))
    {
      var s: seq<Byte> := [];
      ghost var rest := Rest();
      for i := 0 to MAX_VARINT_LEN
        invariant Valid() && pos == old(pos) + i && |s| == i && s == rest[..i]
        invariant forall k :: 0 <= k < i ==> s[k] >= 128
      {
        if pos == |data| {
          NoPrefix(s, rest);
          return None;
        }
        var b := data[pos];
        pos := pos + 1;
        s := s + [b];
        assert s == rest[..i + 1];
        if b < 128 { return Some(s); }
      }
      NoPrefix(s, rest);
      return None;
    }

    /**
      Reads a varint exactly when the rest of the stream starts with the shortest encoding of a
      64-bit value, and then consumes precisely that encoding.
    */
    method ReadVarint() returns (v: Option<nat>)
      requires Valid()
      modifies this`pos
      ensures Valid() && old(pos) <= pos
      ensures v.Some? ==> v.value < UINT64 && data[old(pos)..pos] == Varint(v.value)
      ensures forall w: nat :: w < UINT64 && Varint(w) <= old(Rest()) ==> v == Some(w)
    {
      ghost var rest := Rest();
      var encoded := ScanVarint();
      if encoded.None? { return None; }
      var s := encoded.value;
      AcceptsExactly(s, rest);
      v := ConsumeVarint(s);
      if v.Some? && |s| > 1 && v.value < Top(1, |s| - 1) { return None; }
    }

    /** Type, flags and length: read exactly when the rest of the stream starts with a frame header. */
    method ReadHeader() returns (h: HeaderResult)
      requires Valid()
      modifies this`pos
      ensures Valid() && old(pos) <= pos
      ensures h.Header? ==> data[old(pos)..pos] == HeaderBytes(h.typ, h.length)
      ensures h.BadHeader? ==> h.error.ShortHeader? || h.error.BadFlags? || h.error.BadLength?
      ensures h == BadHeader(ShortHeader) <==> |old(Rest())| < 2
      ensures h == BadHeader(BadFlags) <==> |old(Rest())| >= 2 && old(Rest())[1] != 0
      ensures forall f: Fr :: |f.payload| < UINT64 && FrameBytes(f) <= old(Rest()) ==> h == Header(f.typ, |f.payload|)
    {
      ghost var rest := Rest();
      if |data| - pos < 2 {
        pos := |data|;
        return BadHeader(ShortHeader);
      }
      var typ, flags := data[pos], data[pos + 1];
      pos := pos + 2;
      if flags != 0 {
        assert forall f: Fr :: FrameBytes(f)[1] == 0;
        return BadHeader(BadFlags);
      }
      assert Rest() == rest[2..];
      var v := ReadVarint();
      forall f: Fr | |f.payload| < UINT64 && FrameBytes(f) <= rest
        ensures v == Some(|f.payload|) && f.typ == typ
      {
        HeaderOf(f, rest);
      }
      if v.None? { return BadHeader(BadLength); }
      JoinSlices(data, old(pos), old(pos) + 2, pos);
      assert data[old(pos)..old(pos) + 2] == [typ, 0];
      return Header(typ, v.value);
    }

    /**
      The next `n` bytes. When the stream ends or the reader fails once on the way, there is no
      payload, and the rest of it is drained as far as the stream goes.
    */
    method ReadPayload(n: nat, fault: Option<nat>) returns (payload: Option<seq<Byte>>)
      requires Valid()
      modifies this`pos
      ensures Valid() && old(pos) <= pos
      ensures payload.None? <==> |old(Rest())| < n || (fault.Some? && fault.value < n)
      ensures payload.None? ==> pos == Min(old(pos) + n, |data|)
      ensures payload.Some? ==>
                |payload.value| == n && payload.value == old(Rest())[..n] && data[old(pos)..pos] == payload.value
    {
      var took := Min(n, |data| - pos);
      if fault.Some? { took := Min(took, fault.value); }
      TakeSlice(data, pos, took);
      payload := Some(data[pos..pos + took]);
      pos := pos + took;
      if took < n {
        pos := Min(pos + (n - took), |data|);
        return None;
      }
    }

    /**
      Reads a frame exactly when the rest of the stream starts with one that is within the limit and
      the reader does not fail inside its payload. In either case it consumes precisely that frame,
      so the next read starts at a frame boundary.
    */
    method Read(lim: nat, fault: Option<nat>) returns (r: ReadResult)
      requires Valid() && lim < UINT64
      modifies this`pos
      ensures Valid() && old(pos) <= pos
      ensures r.Ok? ==> |r.frame.payload| <= Limit(lim) && data[old(pos)..pos] == FrameBytes(r.frame)
      ensures r == Err(ShortHeader) <==> |old(Rest())| < 2
      ensures r == Err(BadFlags) <==> |old(Rest())| >= 2 && old(Rest())[1] != 0
      ensures r == Err(TooLarge) ==> exists t: Byte, w: nat :: HeaderBytes(t, w) <= old(Rest()) && w > Limit(lim)
      ensures r == Err(ShortPayload) ==>
                exists t: Byte, w: nat :: HeaderBytes(t, w) <= old(Rest()) && w <= Limit(lim)
                                          && pos == Min(old(pos) + |HeaderBytes(t, w)| + w, |data|)
                                          && (|old(Rest())| < |HeaderBytes(t, w)| + w || Interrupted(fault, w))
      ensures forall f: Fr :: |f.payload| <= Limit(lim) && FrameBytes(f) <= old(Rest()) ==>
                && r == (if Interrupted(fault, |f.payload|) then Err(ShortPayload) else Ok(f))
                && pos == old(pos) + |FrameBytes(f)|
    {
      ghost var rest := Rest();
      var h := ReadHeader();
      if h.BadHeader? { return Err(h.error); }
      JoinSlices(data, old(pos), pos, |data|);
      assert rest == HeaderBytes(h.typ, h.length) + Rest();
      forall f: Fr | |f.payload| <= Limit(lim) && FrameBytes(f) <= rest
        ensures f.typ == h.typ && |f.payload| == h.length && f.payload <= Rest()
      {
        PayloadOf(f, Rest());
      }
      if h.length > Limit(lim) { return Err(TooLarge); }
      ghost var start := pos;
      var payload := ReadPayload(h.length, fault);
      if payload.None? { return Err(ShortPayload); }
      JoinSlices(data, old(pos), start, pos);
      return Ok(Fr(h.typ, payload.value));
    }
  }

  // ---------------------------------------------------------------- streams of frames

  function StreamBytes(fs: seq<Fr>): seq<Byte> {
    if fs == [] then [] else FrameBytes(fs[0]) + StreamBytes(fs[1..])
  }

  lemma StreamLength(fs: seq<Fr>)
    ensures fs != [] ==> |StreamBytes(fs)| >= 2
  {
    if fs != [] {
      assert |FrameBytes(fs[0])| >= 2;
    }
  }

  lemma RestAfter(data: seq<Byte>, i: nat, a: seq<Byte>, b: seq<Byte>)
    requires i <= |data| && data[i..] == a + b
    ensures i + |a| <= |data| && data[i + |a|..] == b
  {
    assert data[i..][|a|..] == data[i + |a|..];
  }

  /** One frame off the front of a stream, and what follows it is next. */
  method ReadOne(s: Stream, lim: nat, ghost f: Fr, ghost rest: seq<Byte>) returns (r: Fr)
    requires s.Valid() && lim < UINT64 && |f.payload| <= Limit(lim) && s.Rest() == FrameBytes(f) + rest
    modifies s
    ensures r == f && s.Valid() && s.data == old(s.data) && s.pos > old(s.pos) && s.Rest() == rest
  {
    RestAfter(s.data, s.pos, FrameBytes(f), rest);
    assert FrameBytes(f) <= s.Rest();
    var read := s.Read(lim, None);
    r := read.frame;
  }

  /** Reading a stream that holds any list of in-limit frames returns exactly that list. */
  method ReadAll(s: Stream, lim: nat, ghost fs: seq<Fr>) returns (got: seq<Fr>)
    requires s.Valid() && lim < UINT64
    requires s.Rest() == StreamBytes(fs) && forall f :: f in fs ==> |f.payload| <= Limit(lim)
    modifies s
    ensures got == fs && s.Valid() && s.pos == |s.data|
  {
    got := [];
    ghost var k := 0;
    while s.pos < |s.data|
      invariant s.Valid() && k <= |fs| && got == fs[..k] && s.data == old(s.data)
      invariant s.Rest() == StreamBytes(fs[k..])
      decreases |s.data| - s.pos
    {
      assert fs[k..] != [];
      ghost var f := fs[k];
      assert s.Rest() == FrameBytes(f) + StreamBytes(fs[k + 1..]) by { assert fs[k..][1..] == fs[k + 1..]; }
      assert f in fs;
      var r := ReadOne(s, lim, f, StreamBytes(fs[k + 1..]));
      got := got + [r];
      k := k + 1;
    }
    StreamLength(fs[k..]);
  }

  /** With no limit configured, whatever can be written, up to 16 MiB, is read back. */
  method WriteThenRead(s: Stream, typ: Byte, payload: seq<Byte>) returns (r: ReadResult)
    requires s.Valid() && s.pos == |s.data| && |payload| <= 0x100_0000
    modifies s
    ensures r == Ok(Fr(typ, payload)) && s.Valid() && s.pos == |s.data|
  {
    ghost var f := Fr(typ, payload);
    VarintFits(|payload|);
    ghost var before := s.data;
    var ok := s.Write(typ, 0, payload, 12 + |payload|, false);
    assert Fit(FrameBytes(f), 12 + |payload|) == FrameBytes(f);
    assert s.data == before + FrameBytes(f);
    assert s.Rest() == FrameBytes(f);
    r := s.Read(0, None);
  }

  /** The first frame of a stream is determined, and so is what follows it. */
  lemma FirstFrame(a: Fr, x: seq<Byte>, b: Fr, y: seq<Byte>)
    requires FrameBytes(a) + x == FrameBytes(b) + y
    ensures a == b && x == y
  {
    var s := FrameBytes(a) + x;
    HeaderOf(a, s);
    HeaderOf(b, s);
    VarintIsCanonical(|a.payload|);
    VarintIsCanonical(|b.payload|);
    TerminatedPrefix(Varint(|a.payload|), Varint(|b.payload|), s[2..]);
    var n := |FrameBytes(a)|;
    assert s[n..] == x && s[n..] == y;
  }

  /** So no two lists of frames share a byte stream. */
  lemma {:induction false} StreamInjective(a: seq<Fr>, b: seq<Fr>)
    requires StreamBytes(a) == StreamBytes(b)
    ensures a == b
    decreases |a|
  {
    if a != [] && b != [] {
      FirstFrame(a[0], StreamBytes(a[1..]), b[0], StreamBytes(b[1..]));
      StreamInjective(a[1..], b[1..]);
      assert a == [a[0]] + a[1..] && b == [b[0]] + b[1..];
    }
    StreamLength(a);
    StreamLength(b);
  }
}

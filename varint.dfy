/** The 7-bit, big-endian variable-length integers of section 2 of RFC 3284, as
    `read7bitIntBE` reads them: at most five bytes, accumulated in a Java `int`. */
module Varint {
  import opened JavaInt
  import opened Errors

  /** The value of base-128 digits, most significant first; the high (continuation)
      bit of every byte is ignored. */
  function Base128(s: seq<byte>): nat
  {
    if s == [] then 0 else Base128(s[..|s| - 1]) * 128 + s[|s| - 1] % 128
  }

  /** How many bytes carrying the continuation bit follow `s[p + n - 1]`, counting
      from `n` and stopping at five, at the end of `s` or at a byte below 0x80. */
  function Continuations(s: seq<byte>, p: nat, n: nat): (k: nat)
    requires n <= 5 && p + n <= |s|
    requires forall i :: p <= i < p + n ==> s[i] >= 0x80
    ensures n <= k <= 5 && p + k <= |s|
    ensures forall i :: p <= i < p + k ==> s[i] >= 0x80
    ensures k < 5 && p + k < |s| ==> s[p + k] < 0x80
    decreases 5 - n
  {
    if n == 5 || p + n >= |s| || s[p + n] < 0x80 then n else Continuations(s, p, n + 1)
  }

  /** The varint at `s[p..]` as section 2 of RFC 3284 defines it, within the five
      bytes `read7bitIntBE` allows: the exact value of its digits and the position
      after it, or why there is none. */
  function Parse(s: seq<byte>, p: nat): (r: Result<(nat, nat)>)
    requires p <= |s|
    ensures r.Ok? ==> var (v, q) := r.value;
      && p < q <= p + 5 && q <= |s|
      && s[q - 1] < 0x80 && (forall i :: p <= i < q - 1 ==> s[i] >= 0x80)
      && v == Base128(s[p..q])
    ensures r.Ok? || r == Err(InvalidVarint) || r == Err(Bounds)
  {
    var k := Continuations(s, p, 0);
    if k == 5 then Err(InvalidVarint)
    else if p + k >= |s| then Err(Bounds)
    else Ok((Base128(s[p..p + k + 1]), p + k + 1))
  }

  /** The two ways `read7bitIntBE` fails: five bytes that all carry the continuation
      bit, or the end of the data before a byte without it. */
  lemma ParseErrors(s: seq<byte>, p: nat)
    requires p <= |s|
    ensures Parse(s, p) == Err(InvalidVarint) <==> p + 5 <= |s| && forall i :: p <= i < p + 5 ==> s[i] >= 0x80
    ensures Parse(s, p) == Err(Bounds) <==> |s| < p + 5 && forall i :: p <= i < |s| ==> s[i] >= 0x80
  {
  }

  /** The high digits of a varint: every byte carries the continuation bit. */
  function EncodeHigh(v: nat): (e: seq<byte>)
    ensures 1 <= |e| && forall i :: 0 <= i < |e| ==> e[i] >= 0x80
    ensures Base128(e) == v
    ensures v < 0x80 ==> |e| == 1
    ensures v < 0x4000 ==> |e| <= 2
    ensures v < 0x20_0000 ==> |e| <= 3
    ensures v < 0x1000_0000 ==> |e| <= 4
  {
    if v < 0x80 then [v + 0x80]
    else
      var h := EncodeHigh(v / 0x80);
      assert (h + [v % 0x80 + 0x80])[..|h|] == h;
      h + [v % 0x80 + 0x80]
  }

  /** The shortest varint encoding of `v`, as an RFC 3284 encoder writes it. */
  function Encode(v: nat): (e: seq<byte>)
    ensures 1 <= |e| && e[|e| - 1] < 0x80
    ensures forall i :: 0 <= i < |e| - 1 ==> e[i] >= 0x80
    ensures Base128(e) == v
    ensures v < 0x80 ==> |e| == 1
    ensures v < 0x8_0000_0000 ==> |e| <= 5
  {
    if v < 0x80 then [v]
    else
      var h := EncodeHigh(v / 0x80);
      assert (h + [v % 0x80])[..|h|] == h;
      h + [v % 0x80]
  }

  lemma {:induction false} ContinuationsOfEncoding(s: seq<byte>, p: nat, e: seq<byte>, n: nat)
    requires 1 <= |e| <= 5 && e[|e| - 1] < 0x80
    requires forall i :: 0 <= i < |e| - 1 ==> e[i] >= 0x80
    requires p + |e| <= |s| && s[p..p + |e|] == e
    requires n <= |e| - 1
    ensures p + n <= |s| && forall i :: p <= i < p + n ==> s[i] >= 0x80
    ensures Continuations(s, p, n) == |e| - 1
    decreases |e| - 1 - n
  {
    assert forall i :: p <= i < p + |e| ==> s[i] == e[i - p];
    if n < |e| - 1 {
      ContinuationsOfEncoding(s, p, e, n + 1);
    }
  }

  /** Round trip: reading back an encoding of `v` (fewer than 2^35, so at most five
      bytes) gives `v` and consumes exactly the encoding. */
  lemma ParseEncode(s: seq<byte>, p: nat, v: nat)
    requires v < 0x8_0000_0000
    requires p + |Encode(v)| <= |s| && s[p..p + |Encode(v)|] == Encode(v)
    ensures Parse(s, p) == Ok((v, p + |Encode(v)|))
  {
    ContinuationsOfEncoding(s, p, Encode(v), 0);
  }

  lemma {:induction false} ContinuationsCount(s: seq<byte>, p: nat, n: nat, k: nat)
    requires n <= k <= 5 && p + k <= |s|
    requires forall i :: p <= i < p + k ==> s[i] >= 0x80
    requires k == 5 || p + k == |s| || s[p + k] < 0x80
    ensures Continuations(s, p, n) == k
    decreases k - n
  {
    if n < k {
      ContinuationsCount(s, p, n + 1, k);
    }
  }

  /** What `read7bitIntBE` does after reading `k` bytes that all carry the
      continuation bit: stop at a fifth (InvalidVarint), fail at the end of the data,
      or finish with the next byte if it has no continuation bit. */
  lemma ParseSteps(s: seq<byte>, p: nat, k: nat)
    requires k <= 5 && p + k <= |s|
    requires forall i :: p <= i < p + k ==> s[i] >= 0x80
    ensures k == 5 ==> Parse(s, p) == Err(InvalidVarint)
    ensures k < 5 && p + k == |s| ==> Parse(s, p) == Err(Bounds)
    ensures k < 5 && p + k < |s| && s[p + k] < 0x80 ==>
      Parse(s, p) == Ok((Base128(s[p..p + k + 1]), p + k + 1))
  {
    if k == 5 || p + k == |s| || s[p + k] < 0x80 {
      ContinuationsCount(s, p, 0, k);
    }
  }

  /** The loop of `read7bitIntBE` at position `q`, after `k` bytes with the
      continuation bit whose digits have the exact value `acc`. */
  function ReadFrom(s: seq<byte>, q: nat, k: nat, acc: nat): (r: Result<(nat, nat)>)
    requires k <= 5 && q <= |s|
    ensures r.Ok? ==> q < r.value.1 <= q + 5 - k && r.value.1 <= |s|
    decreases 5 - k
  {
    if k == 5 then Err(InvalidVarint)
    else if q == |s| then Err(Bounds)
    else
      var acc' := acc * 128 + s[q] % 128;
      if s[q] < 0x80 then Ok((acc', q + 1)) else ReadFrom(s, q + 1, k + 1, acc')
  }

  lemma {:induction false} ReadFromParse(s: seq<byte>, p: nat, k: nat, acc: nat)
    requires k <= 5 && p + k <= |s|
    requires forall i :: p <= i < p + k ==> s[i] >= 0x80
    requires acc == Base128(s[p..p + k])
    ensures ReadFrom(s, p + k, k, acc) == Parse(s, p)
    decreases 5 - k
  {
    if k == 5 || p + k == |s| {
      ParseSteps(s, p, k);
    } else if s[p + k] < 0x80 {
      ParseLastDigit(s, p, k, acc);
    } else {
      Base128Step(s, p, k);
      ReadFromParse(s, p, k + 1, acc * 128 + s[p + k] % 128);
    }
  }

  /** `ParseSteps` with the value of the first `k` digits already known. */
  lemma {:induction false} ParseLastDigit(s: seq<byte>, p: nat, k: nat, acc: nat)
    requires k < 5 && p + k < |s| && s[p + k] < 0x80
    requires forall i :: p <= i < p + k ==> s[i] >= 0x80
    requires acc == Base128(s[p..p + k])
    ensures Parse(s, p) == Ok((acc * 128 + s[p + k] % 128, p + k + 1))
  {
    ParseSteps(s, p, k);
    Base128Step(s, p, k);
  }

  /** Appending one digit to a varint prefix: the accumulator step of `read7bitIntBE`. */
  lemma Base128Step(s: seq<byte>, p: nat, k: nat)
    requires p + k < |s|
    ensures Base128(s[p..p + k + 1]) == Base128(s[p..p + k]) * 128 + s[p + k] % 128
  {
    assert s[p..p + k + 1][..k] == s[p..p + k];
  }

  /** The largest value a four-byte varint can carry; such varints never wrap. */
  lemma FourBytesNeverWrap(s: seq<byte>, p: nat)
    requires p <= |s| && Parse(s, p).Ok? && Parse(s, p).value.1 <= p + 4
    ensures 0 <= Parse(s, p).value.0 < 0x1000_0000
  {
    var q := Parse(s, p).value.1;
    Base128Bound(s[p..q]);
  }

  lemma {:induction false} Base128Bound(s: seq<byte>)
    ensures |s| <= 4 ==> Base128(s) < 0x1000_0000
    ensures |s| <= 3 ==> Base128(s) < 0x20_0000
    ensures |s| <= 2 ==> Base128(s) < 0x4000
    ensures |s| <= 1 ==> Base128(s) < 0x80
  {
    if s != [] {
      Base128Bound(s[..|s| - 1]);
    }
  }
}

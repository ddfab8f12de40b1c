/**
  Signature encodings (src/auth/secp256k1.utils.ts): the DER to compact conversion against the
  minimal DER printing of a 64-byte signature, INTEGER contents as in section 8.3 of ITU-T X.690.
 */
module DerSignature {
  import opened Common

  function Zeros(n: nat): (z: seq<Byte>)
    ensures |z| == n && forall i :: 0 <= i < n ==> z[i] == 0
  {
    seq(n, _ => 0)
  }

  // ----- printing

  /** Leading zero bytes removed, at least one byte kept. */
  function Strip(x: seq<Byte>): (v: seq<Byte>)
    ensures |v| <= |x| && (x != [] ==> v != [])
  {
    if |x| > 1 && x[0] == 0 then Strip(x[1..]) else x
  }

  /** The contents of a DER INTEGER: minimal, with a zero byte in front of a set top bit. */
  function Contents(x: seq<Byte>): seq<Byte>
    requires x != []
  {
    var v := Strip(x);
    if v[0] >= 0x80 then [0] + v else v
  }

  predicate Compact(c: seq<Byte>) {
    |c| == 64
  }

  function Der(c: seq<Byte>): seq<Byte>
    requires Compact(c)
  {
    var r, s := Contents(c[..32]), Contents(c[32..]);
    ContentsSize(c[..32]);
    ContentsSize(c[32..]);
    [0x30, 4 + |r| + |s|, 0x02, |r|] + r + [0x02, |s|] + s
  }

  lemma ContentsSize(x: seq<Byte>)
    requires |x| == 32
    ensures 1 <= |Contents(x)| <= 33
  {
  }

  // ----- reading

  /** The last 32 bytes of a longer buffer, a shorter one padded on the left. */
  function Fit(buf: seq<Byte>): (r: seq<Byte>)
    ensures |r| == 32
  {
    if |buf| > 32 then buf[|buf| - 32..] else Zeros(32 - |buf|) + buf
  }

  /** subarray: bounds beyond the buffer are cut to its length. */
  function Slice(b: seq<Byte>, from: nat, length: nat): seq<Byte> {
    if from >= |b| then [] else if from + length >= |b| then b[from..] else b[from..from + length]
  }

  /** derToCompact: anything not shaped like two INTEGERs comes back unchanged. */
  function Decode(sig: seq<Byte>): seq<Byte> {
    if |sig| < 4 || sig[2] != 0x02 then sig
    else
      var rLen: nat := sig[3];
      var offset := 4 + rLen;
      if offset >= |sig| || sig[offset] != 0x02 then sig
      else
        var s := if offset + 1 < |sig| then Slice(sig, offset + 2, sig[offset + 1]) else [];
        Fit(Slice(sig, 4, rLen)) + Fit(s)
  }

  // ----- the round trip

  lemma {:induction false} StripPadded(x: seq<Byte>)
    ensures Zeros(|x| - |Strip(x)|) + Strip(x) == x
  {
    if |x| > 1 && x[0] == 0 {
      StripPadded(x[1..]);
      var n := |x| - 1 - |Strip(x[1..])|;
      assert Zeros(n + 1) == [0] + Zeros(n);
      assert x == [x[0]] + x[1..];
    } else {
      assert Zeros(0) + x == x;
    }
  }

  /** Fitting the INTEGER contents of 32 bytes gives them back, through every drop and pad. */
  lemma FitContents(x: seq<Byte>)
    requires |x| == 32
    ensures Fit(Contents(x)) == x
  {
    StripPadded(x);
    var v := Strip(x);
    if v[0] >= 0x80 {
      if |v| < 32 {
        assert Zeros(32 - |v|) == Zeros(31 - |v|) + [0];
        assert Zeros(31 - |v|) + ([0] + v) == Zeros(31 - |v|) + [0] + v;
      } else {
        assert Zeros(0) + v == v && ([0] + v)[1..] == v;
      }
    }
  }

  lemma DerParts(c: seq<Byte>)
    requires Compact(c)
    ensures var r, s, d := Contents(c[..32]), Contents(c[32..]), Der(c);
            && |d| == 6 + |r| + |s| && d[0] == 0x30 && d[2] == 0x02 && d[3] == |r|
            && d[4..4 + |r|] == r && d[4 + |r|] == 0x02 && d[5 + |r|] == |s| && d[6 + |r|..] == s
  {
    var r, s := Contents(c[..32]), Contents(c[32..]);
    ContentsSize(c[..32]);
    ContentsSize(c[32..]);
    LaidOut([0x30, 4 + |r| + |s|, 0x02, |r|], r, [0x02, |s|], s);
  }

  lemma LaidOut(head: seq<Byte>, r: seq<Byte>, middle: seq<Byte>, s: seq<Byte>)
    requires |head| == 4 && |middle| == 2
    ensures var d := head + r + middle + s;
            && |d| == 6 + |r| + |s| && d[..4] == head && d[4..4 + |r|] == r
            && d[4 + |r|] == middle[0] && d[5 + |r|] == middle[1] && d[6 + |r|..] == s
            && d[0] == head[0] && d[2] == head[2] && d[3] == head[3]
  {
  }

  /** Every 64-byte signature survives its DER form. */
  lemma DerRoundTrip(c: seq<Byte>)
    requires Compact(c)
    ensures Decode(Der(c)) == c
  {
    var r, s, d := Contents(c[..32]), Contents(c[32..]), Der(c);
    ContentsSize(c[..32]);
    ContentsSize(c[32..]);
    DerParts(c);
    FitContents(c[..32]);
    FitContents(c[32..]);
    assert Slice(d, 4, |r|) == r;
    assert Slice(d, 6 + |r|, |s|) == s;
    assert c[..32] + c[32..] == c;
  }

  /** A number in 32 bytes: zeros in front of a short one, the front of a long one dropped. */
  function InThirtyTwo(x: seq<Byte>): (h: seq<Byte>)
    ensures |h| == 32
  {
    seq(32, i requires 0 <= i < 32 => if i + |x| < 32 then 0 else x[i + |x| - 32])
  }

  lemma FitIs(x: seq<Byte>)
    ensures Fit(x) == InThirtyTwo(x)
  {
  }

  /** Any two INTEGERs are read into the two halves, minimal or not and whatever follows them. */
  lemma AnyIntegersAreRead(head: seq<Byte>, r: seq<Byte>, s: seq<Byte>, rest: seq<Byte>)
    requires |head| == 2 && |r| < 256 && |s| < 256
    ensures Decode(head + [0x02, |r|] + r + [0x02, |s|] + s + rest) == InThirtyTwo(r) + InThirtyTwo(s)
  {
    var sig := head + [0x02, |r|] + r + [0x02, |s|] + s + rest;
    LaidOut(head + [0x02, |r|], r, [0x02, |s|], s + rest);
    assert sig == (head + [0x02, |r|]) + r + [0x02, |s|] + (s + rest);
    assert Slice(sig, 4, |r|) == r;
    SliceOfTail(sig, 6 + |r|, s, rest);
    FitIs(r);
    FitIs(s);
  }

  lemma SliceOfTail(sig: seq<Byte>, from: nat, s: seq<Byte>, rest: seq<Byte>)
    requires from <= |sig| && sig[from..] == s + rest
    ensures Slice(sig, from, |s|) == s
  {
    assert sig[from..][..|s|] == s;
    if from + |s| < |sig| { assert sig[from..from + |s|] == sig[from..][..|s|]; }
  }

  /** Anything else, such as a compact signature, comes back unchanged. */
  lemma OthersAreKept(sig: seq<Byte>)
    ensures Decode(sig) == sig || (|Decode(sig)| == 64 && |sig| >= 4 && sig[2] == 0x02
                                   && 4 + sig[3] < |sig| && sig[4 + sig[3]] == 0x02)
  {
  }

  // ----- what the verifier is handed

  /** Only a longer-than-compact signature that starts like a SEQUENCE is converted. */
  function Normalized(sig: seq<Byte>): seq<Byte> {
    if |sig| > 64 && sig[0] == 0x30 then Decode(sig) else sig
  }

  /** A DER form as long as the signature itself never is that signature. */
  lemma NoFixedPoint(c: seq<Byte>)
    requires Compact(c) && |Der(c)| == 64
    ensures Der(c) != c
  {
    var r, s := Contents(c[..32]), Contents(c[32..]);
    DerParts(c);
    if Der(c) == c {
      ContentsOfSmallHead(c[..32]);
      Period(c);
      ContentsOfSmallHead(c[32..]);
    }
  }

  lemma ContentsOfSmallHead(x: seq<Byte>)
    requires |x| == 32
    ensures 0 < x[0] < 0x80 ==> Contents(x) == x
  {
  }

  lemma Period(c: seq<Byte>)
    requires |c| == 64
    ensures c[4..36] == c[..32] ==> c[32] == c[0]
  {
    if c[4..36] == c[..32] {
      assert forall i :: 0 <= i < 32 ==> c[4 + i] == c[4..36][i] == c[..32][i];
      assert c[4 + 28] == c[28] && c[4 + 24] == c[24] && c[4 + 20] == c[20] && c[4 + 16] == c[16];
      assert c[4 + 12] == c[12] && c[4 + 8] == c[8] && c[4 + 4] == c[4] && c[4 + 0] == c[0];
    }
  }

  /**
    The DER form of a signature reaches the verifier as the signature itself exactly when it is
    longer than 64 bytes; a shorter one is passed on unconverted.
   */
  lemma DerIsRecognisedIff(c: seq<Byte>)
    requires Compact(c)
    ensures Normalized(Der(c)) == c <==> |Der(c)| > 64
  {
    DerParts(c);
    if |Der(c)| > 64 {
      DerRoundTrip(c);
    } else if |Der(c)| == 64 {
      NoFixedPoint(c);
    }
  }

  /** The number one in 32 bytes. */
  function One(): (x: seq<Byte>)
    ensures |x| == 32
  {
    Zeros(31) + [1]
  }

  lemma {:induction false} StripZeros(n: nat)
    ensures Strip(Zeros(n) + [1]) == [1]
  {
    if n == 0 {
      assert Zeros(0) + [1] == [1];
    } else {
      assert (Zeros(n) + [1])[1..] == Zeros(n - 1) + [1];
      StripZeros(n - 1);
    }
  }

  /** A signature whose DER form is too short to be recognised: r and s are both one. */
  lemma ShortDerIsNotRecognised()
    ensures |Der(One() + One())| == 8 && Normalized(Der(One() + One())) != One() + One()
  {
    var c := One() + One();
    assert c[..32] == One() && c[32..] == One();
    StripZeros(31);
    DerParts(c);
    DerIsRecognisedIff(c);
  }

  // ----- as it runs

  /** The padded copy, written into a fresh 32-byte buffer. */
  method FitBuffer(buf: seq<Byte>) returns (out: seq<Byte>)
    ensures out == Fit(buf)
  {
    if |buf| > 32 {
      return buf[|buf| - 32..];
    }
    var res := new Byte[32](_ => 0);
    var at := 32 - |buf|;
    var i := 0;
    while i < |buf|
      invariant 0 <= i <= |buf|
      invariant forall k :: 0 <= k < at ==> res[k] == 0
      invariant forall k :: 0 <= k < i ==> res[at + k] == buf[k]
    {
      res[at + i] := buf[i];
      i := i + 1;
    }
    out := res[..];
    assert forall k :: 0 <= k < 32 ==> out[k] == (Zeros(at) + buf)[k] by {
      forall k | 0 <= k < 32
        ensures out[k] == (Zeros(at) + buf)[k]
      {
        if k >= at { assert res[at + (k - at)] == buf[k - at]; }
      }
    }
  }

  method DerToCompact(sig: seq<Byte>) returns (out: seq<Byte>)
    ensures forall c :: Compact(c) && sig == Der(c) ==> out == c
    ensures out == Decode(sig)
  {
    forall c | Compact(c) && sig == Der(c)
      ensures Decode(sig) == c
    {
      DerRoundTrip(c);
    }
    var offset := 2;
    if offset >= |sig| || sig[offset] != 0x02 {
      return sig;
    }
    offset := offset + 1;
    if offset >= |sig| {
      return sig;
    }
    var rLen: nat := sig[offset];
    offset := offset + 1;
    var r := FitBuffer(Slice(sig, offset, rLen));
    offset := offset + rLen;
    if offset >= |sig| || sig[offset] != 0x02 {
      return sig;
    }
    offset := offset + 1;
    var s;
    if offset < |sig| {
      s := FitBuffer(Slice(sig, offset + 1, sig[offset]));
    } else {
      s := FitBuffer([]);
    }
    return r + s;
  }
}

/**
 WebSocket close reasons (apps/data-plane-gateway/src/websocket-close.ts): the longest prefix
 of whole characters within 123 bytes of UTF-8, which keeps a close frame within the 125
 bytes of sections 5.5 and 5.5.1 of RFC 6455.
 */
module CloseReason {

  /** A JavaScript string is a sequence of UTF-16 code units. */
  newtype CodeUnit = n: int | 0 <= n < 0x1_0000

  const MAX_WEBSOCKET_CLOSE_REASON_BYTES := 123

  predicate IsHighSurrogate(u: CodeUnit) {
    0xD800 <= u < 0xDC00
  }

  predicate IsLowSurrogate(u: CodeUnit) {
    0xDC00 <= u < 0xE000
  }

  predicate StartsWithPair(s: seq<CodeUnit>) {
    |s| >= 2 && IsHighSurrogate(s[0]) && IsLowSurrogate(s[1])
  }

  /** Code units of the first character, as `for (const character of s)` steps. */
  function CharacterUnits(s: seq<CodeUnit>): (n: nat)
    requires s != []
    ensures 1 <= n <= |s|
  {
    if StartsWithPair(s) then 2 else 1
  }

  /** Bytes of the first character in UTF-8; a lone surrogate is written as U+FFFD. */
  function CharacterBytes(s: seq<CodeUnit>): (n: nat)
    requires s != []
    ensures 1 <= n <= 4
  {
    if StartsWithPair(s) then 4
    else if s[0] < 0x80 then 1
    else if s[0] < 0x800 then 2
    else 3
  }

  /** Buffer.byteLength */
  function ByteLength(s: seq<CodeUnit>): nat
    decreases |s|
  {
    if s == [] then 0 else CharacterBytes(s) + ByteLength(s[CharacterUnits(s)..])
  }

  /** `k` code units are a number of whole characters of `s`. */
  predicate IsBoundary(s: seq<CodeUnit>, k: nat)
    decreases |s|
  {
    k == 0 || (s != [] && k >= CharacterUnits(s) && IsBoundary(s[CharacterUnits(s)..], k - CharacterUnits(s)))
  }

  lemma {:induction false} BoundaryIsWithin(s: seq<CodeUnit>, k: nat)
    requires IsBoundary(s, k)
    ensures k <= |s|
    decreases |s|
  {
    if k > 0 {
      BoundaryIsWithin(s[CharacterUnits(s)..], k - CharacterUnits(s));
    }
  }

  /** A prefix of whole characters reads as the same characters. */
  lemma PrefixStartsAlike(s: seq<CodeUnit>, k: nat)
    requires IsBoundary(s, k) && 0 < k <= |s|
    ensures s != [] && CharacterUnits(s[..k]) == CharacterUnits(s) <= k && CharacterBytes(s[..k]) == CharacterBytes(s)
    ensures s[..k][CharacterUnits(s)..] == s[CharacterUnits(s)..][..k - CharacterUnits(s)]
  {
    assert s[..k][0] == s[0];
    if k >= 2 {
      assert s[..k][1] == s[1];
    }
  }

  /** Between a boundary and the end of the next character there is no boundary. */
  lemma {:induction false} NextBoundary(s: seq<CodeUnit>, k: nat, j: nat)
    requires IsBoundary(s, k) && k < |s| && IsBoundary(s, j) && j > k
    ensures j >= k + CharacterUnits(s[k..])
    decreases |s|
  {
    if k == 0 {
      assert s[0..] == s;
    } else {
      var n := CharacterUnits(s);
      var rest := s[n..];
      assert IsBoundary(rest, k - n) && IsBoundary(rest, j - n);
      NextBoundary(rest, k - n, j - n);
      assert s[k..] == rest[k - n..];
    }
  }

  lemma PrefixWeighsItsFirstCharacter(s: seq<CodeUnit>, k: nat)
    requires IsBoundary(s, k) && 0 < k <= |s|
    ensures CharacterUnits(s) <= k
    ensures ByteLength(s[..k]) == CharacterBytes(s) + ByteLength(s[CharacterUnits(s)..][..k - CharacterUnits(s)])
  {
    PrefixStartsAlike(s, k);
  }

  lemma FirstCharacter(s: seq<CodeUnit>)
    requires s != []
    ensures IsBoundary(s, CharacterUnits(s)) && ByteLength(s[..CharacterUnits(s)]) == CharacterBytes(s)
  {
    var n := CharacterUnits(s);
    assert IsBoundary(s[n..], 0);
    PrefixWeighsItsFirstCharacter(s, n);
    assert s[n..][..0] == [];
  }

  /** After a boundary the next character ends at a boundary, and adds its own bytes. */
  lemma {:induction false} OneMoreCharacter(s: seq<CodeUnit>, k: nat)
    requires IsBoundary(s, k) && k < |s|
    ensures var next := k + CharacterUnits(s[k..]);
      && next <= |s| && IsBoundary(s, next)
      && ByteLength(s[..next]) == ByteLength(s[..k]) + CharacterBytes(s[k..])
    decreases |s|
  {
    if k == 0 {
      assert s[0..] == s && s[..0] == [];
      FirstCharacter(s);
    } else {
      var n := CharacterUnits(s);
      var rest := s[n..];
      OneMoreCharacter(rest, k - n);
      assert s[k..] == rest[k - n..];
      var next := k + CharacterUnits(s[k..]);
      assert IsBoundary(rest, next - n) && IsBoundary(s, next);
      PrefixWeighsItsFirstCharacter(s, k);
      PrefixWeighsItsFirstCharacter(s, next);
    }
  }

  lemma {:induction false} LongerPrefixesWeighMore(s: seq<CodeUnit>, k: nat, j: nat)
    requires IsBoundary(s, k) && IsBoundary(s, j) && k <= j <= |s|
    ensures ByteLength(s[..k]) <= ByteLength(s[..j])
    decreases j - k
  {
    if k < j {
      NextBoundary(s, k, j);
      OneMoreCharacter(s, k);
      LongerPrefixesWeighMore(s, k + CharacterUnits(s[k..]), j);
    }
  }

  // ---------- UTF-8 ----------

  type Byte = n: int | 0 <= n < 256

  /** The code point of the first character (section 2 of RFC 2781); a lone surrogate is
      replaced by U+FFFD. */
  function CodePoint(s: seq<CodeUnit>): (n: nat)
    requires s != []
    ensures n < 0x11_0000
  {
    if StartsWithPair(s) then 0x1_0000 + (s[0] as int - 0xD800) * 0x400 + (s[1] as int - 0xDC00)
    else if IsHighSurrogate(s[0]) || IsLowSurrogate(s[0]) then 0xFFFD
    else s[0] as int
  }

  /** The bytes of a code point (section 3 of RFC 3629). */
  function EncodeCodePoint(n: nat): seq<Byte>
    requires n < 0x11_0000
  {
    if n < 0x80 then [n]
    else if n < 0x800 then [0xC0 + n / 0x40, 0x80 + n % 0x40]
    else if n < 0x1_0000 then [0xE0 + n / 0x1000, 0x80 + n / 0x40 % 0x40, 0x80 + n % 0x40]
    else [0xF0 + n / 0x4_0000, 0x80 + n / 0x1000 % 0x40, 0x80 + n / 0x40 % 0x40, 0x80 + n % 0x40]
  }

  function Utf8(s: seq<CodeUnit>): seq<Byte>
    decreases |s|
  {
    if s == [] then [] else EncodeCodePoint(CodePoint(s)) + Utf8(s[CharacterUnits(s)..])
  }

  /** The bytes of a code point give it back, and the first one tells how many they are. */
  lemma BytesGiveTheCodePoint(n: nat)
    requires n < 0x11_0000
    ensures
      var b: seq<int> := EncodeCodePoint(n);
      && b != [] && (forall i :: 1 <= i < |b| ==> 0x80 <= b[i] < 0xC0)
      && (if b[0] < 0x80 then |b| == 1 && n == b[0]
          else if b[0] < 0xE0 then |b| == 2 && 0xC0 <= b[0] && n == (b[0] - 0xC0) * 0x40 + (b[1] - 0x80)
          else if b[0] < 0xF0 then
            |b| == 3 && n == ((b[0] - 0xE0) * 0x40 + (b[1] - 0x80)) * 0x40 + (b[2] - 0x80)
          else
            |b| == 4 && n == (((b[0] - 0xF0) * 0x40 + (b[1] - 0x80)) * 0x40 + (b[2] - 0x80)) * 0x40 + (b[3] - 0x80))
  {
    assert n == n / 0x40 * 0x40 + n % 0x40;
    assert n / 0x1000 == n / 0x40 / 0x40 && n / 0x4_0000 == n / 0x40 / 0x40 / 0x40;
  }

  /** What is counted is the number of those bytes. */
  lemma {:induction false} ByteLengthCountsBytes(s: seq<CodeUnit>)
    ensures |Utf8(s)| == ByteLength(s)
    decreases |s|
  {
    if s != [] {
      assert |EncodeCodePoint(CodePoint(s))| == CharacterBytes(s);
      ByteLengthCountsBytes(s[CharacterUnits(s)..]);
    }
  }

  // ---------- The longest prefix that fits ----------

  /** A cut at `k` parts no surrogate pair. */
  predicate PartsNoPair(s: seq<CodeUnit>, k: nat) {
    k <= |s| && !(0 < k < |s| && IsHighSurrogate(s[k - 1]) && IsLowSurrogate(s[k]))
  }

  /** Stepping by characters stops exactly at the cuts that part no pair. */
  lemma {:induction false} BoundaryIff(s: seq<CodeUnit>, k: nat)
    ensures IsBoundary(s, k) <==> PartsNoPair(s, k)
    decreases |s|
  {
    if k > 0 && s != [] {
      var n := CharacterUnits(s);
      if k >= n {
        BoundaryIff(s[n..], k - n);
      }
    }
  }

  predicate Fits(s: seq<CodeUnit>, k: nat) {
    PartsNoPair(s, k) && |Utf8(s[..k])| <= MAX_WEBSOCKET_CLOSE_REASON_BYTES
  }

  lemma FitsIff(s: seq<CodeUnit>, k: nat)
    requires k <= |s|
    ensures Fits(s, k) <==> IsBoundary(s, k) && ByteLength(s[..k]) <= MAX_WEBSOCKET_CLOSE_REASON_BYTES
  {
    BoundaryIff(s, k);
    ByteLengthCountsBytes(s[..k]);
  }

  /** `k` is the longest prefix of whole characters that fits. */
  ghost predicate IsLongestFit(s: seq<CodeUnit>, k: nat) {
    Fits(s, k) && forall j: nat :: Fits(s, j) ==> j <= k
  }

  method NormalizeWebSocketCloseReason(closeReason: seq<CodeUnit>) returns (normalized: seq<CodeUnit>)
    ensures |normalized| <= |closeReason| && normalized == closeReason[..|normalized|]
    ensures IsLongestFit(closeReason, |normalized|)
    ensures 2 + |Utf8(normalized)| <= 125
  {
    normalized := [];
    var normalizedBytes := 0;
    while |normalized| < |closeReason|
      invariant |normalized| <= |closeReason| && normalized == closeReason[..|normalized|]
      invariant IsBoundary(closeReason, |normalized|)
      invariant normalizedBytes == ByteLength(normalized) <= MAX_WEBSOCKET_CLOSE_REASON_BYTES
    {
      var rest := closeReason[|normalized|..];
      var character := rest[..CharacterUnits(rest)];
      var characterBytes := CharacterBytes(rest);
      OneMoreCharacter(closeReason, |normalized|);
      assert normalized + character == closeReason[..|normalized| + |character|];
      if normalizedBytes + characterBytes > MAX_WEBSOCKET_CLOSE_REASON_BYTES {
        FitsIff(closeReason, |normalized|);
        forall j: nat | Fits(closeReason, j) ensures j <= |normalized| {
          FitsIff(closeReason, j);
          if j > |normalized| {
            NextBoundary(closeReason, |normalized|, j);
            LongerPrefixesWeighMore(closeReason, |normalized| + |character|, j);
          }
        }
        return;
      }
      normalized := normalized + character;
      normalizedBytes := normalizedBytes + characterBytes;
    }
    FitsIff(closeReason, |normalized|);
  }

  /** The longest fit is unique, so the contract above fixes the result. */
  lemma LongestFitIsUnique(s: seq<CodeUnit>, k: nat, j: nat)
    requires IsLongestFit(s, k) && IsLongestFit(s, j)
    ensures k == j
  {
  }

  /** A reason in bound is kept whole, and only such a reason is. */
  lemma KeptWholeIffInBound(s: seq<CodeUnit>)
    ensures IsLongestFit(s, |s|) <==> |Utf8(s)| <= MAX_WEBSOCKET_CLOSE_REASON_BYTES
  {
    assert s[..|s|] == s;
  }

  /** Normalizing a normalized reason changes nothing. */
  lemma NormalizingTwiceIsNormalizingOnce(s: seq<CodeUnit>, k: nat)
    requires IsLongestFit(s, k)
    ensures IsLongestFit(s[..k], k)
  {
    KeptWholeIffInBound(s[..k]);
  }
}

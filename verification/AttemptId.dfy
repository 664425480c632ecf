/** Attempt ids: a millisecond timestamp and a hash, both in base 32 with a fixed width. */
module AttemptId {
  import opened Lexicographic

  const CROCKFORD: string := "0123456789ABCDEFGHJKMNPQRSTVWXYZ"
  const TIME_DIGITS: nat := 10
  const HASH_DIGITS: nat := 6

  function Pow32(n: nat): (r: int)
    ensures 0 < r
  {
    if n == 0 then 1 else 32 * Pow32(n - 1)
  }

  /** The last n base-32 digits of v, most significant first. */
  function Encode(v: nat, alphabet: string, n: nat): (s: string)
    requires |alphabet| == 32
    ensures |s| == n
  {
    if n == 0 then [] else Encode(v / 32, alphabet, n - 1) + [alphabet[v % 32]]
  }

  /** Digits are filled in from the right, as the value is divided down. */
  method EncodeBase32(value: nat, alphabet: string, length: nat) returns (s: string)
    requires |alphabet| == 32
    ensures s == Encode(value, alphabet, length)
  {
    var result := new char[length];
    var v := value;
    var i := length;
    while i > 0
      invariant 0 <= i <= length
      invariant Encode(v, alphabet, i) + result[i..] == Encode(value, alphabet, length)
    {
      i := i - 1;
      ghost var done := result[i + 1..];
      result[i] := alphabet[v % 32];
      assert result[i..] == [alphabet[v % 32]] + done;
      assert Encode(v, alphabet, i + 1) + done == Encode(v / 32, alphabet, i) + result[i..];
      v := v / 32;
    }
    s := result[..];
    assert s == result[0..];
  }

  predicate Ascending(alphabet: string) {
    forall i, j :: 0 <= i < j < |alphabet| ==> alphabet[i] < alphabet[j]
  }

  function DigitValue(c: char, alphabet: string): nat
  {
    if alphabet == [] || alphabet[0] == c then 0 else 1 + DigitValue(c, alphabet[1..])
  }

  function Decode(s: string, alphabet: string): nat {
    if s == [] then 0 else 32 * Decode(s[..|s| - 1], alphabet) + DigitValue(s[|s| - 1], alphabet)
  }

  lemma {:induction false} DigitValueInverts(alphabet: string, d: nat)
    requires d < |alphabet| && Ascending(alphabet)
    ensures DigitValue(alphabet[d], alphabet) == d
  {
    if d > 0 {
      assert alphabet[0] < alphabet[d];
      assert Ascending(alphabet[1..]);
      DigitValueInverts(alphabet[1..], d - 1);
    }
  }

  lemma SplitModulo(v: nat, m: int)
    requires 0 < m
    ensures v % (32 * m) == 32 * (v / 32 % m) + v % 32
    ensures 0 <= v / 32 % m < m
  {
    var q := v / 32;
    var big := q / m;
    assert q == big * m + q % m;
    assert v == 32 * q + v % 32;
    assert v == (32 * m) * big + (32 * (q % m) + v % 32);
    assert 0 <= 32 * (q % m) + v % 32 < 32 * m;
    ModuloUnique(v, 32 * m, big, 32 * (q % m) + v % 32);
  }

  lemma ModuloUnique(v: int, m: int, q: int, r: int)
    requires 0 <= r < m && v == m * q + r
    ensures v % m == r
  {
    var q', r' := v / m, v % m;
    assert v == m * q' + r';
    assert m * (q - q') == r' - r;
    SmallMultiple(m, q - q');
  }

  lemma SmallMultiple(m: int, k: int)
    requires 0 < m && -m < m * k < m
    ensures k == 0
  {
    if k > 0 {
      ScaleUp(m, k);
    } else if k < 0 {
      ScaleUp(m, -k);
    }
  }

  lemma ScaleUp(m: int, k: int)
    requires 0 < m && 1 <= k
    ensures m <= m * k
  {
    assert 0 <= m * (k - 1);
  }

  /** Decoding gives back the value modulo 32 to the power of the width. */
  lemma {:induction false} DecodeEncode(v: nat, alphabet: string, n: nat)
    requires |alphabet| == 32 && Ascending(alphabet)
    ensures Decode(Encode(v, alphabet, n), alphabet) == v % Pow32(n)
  {
    if n > 0 {
      var s := Encode(v, alphabet, n);
      assert s[..|s| - 1] == Encode(v / 32, alphabet, n - 1);
      DecodeEncode(v / 32, alphabet, n - 1);
      DigitValueInverts(alphabet, v % 32);
      SplitModulo(v, Pow32(n - 1));
    }
  }

  /** Two values share an encoding exactly when they agree modulo 32 to the power of the width:
      below that bound the encoding is injective, above it digits are lost. */
  lemma {:induction false} EncodeInjective(v: nat, w: nat, alphabet: string, n: nat)
    requires |alphabet| == 32 && Ascending(alphabet)
    ensures Encode(v, alphabet, n) == Encode(w, alphabet, n) <==> v % Pow32(n) == w % Pow32(n)
  {
    if n > 0 {
      var (s, t) := (Encode(v, alphabet, n), Encode(w, alphabet, n));
      EncodeInjective(v / 32, w / 32, alphabet, n - 1);
      SplitModulo(v, Pow32(n - 1));
      SplitModulo(w, Pow32(n - 1));
      assert s[..n - 1] == Encode(v / 32, alphabet, n - 1) && t[..n - 1] == Encode(w / 32, alphabet, n - 1);
      assert s[n - 1] == alphabet[v % 32] && t[n - 1] == alphabet[w % 32];
    }
  }

  /** With an ascending alphabet the order of encodings is the numeric order of what they keep. */
  lemma {:induction false} EncodeOrder(v: nat, w: nat, alphabet: string, n: nat)
    requires |alphabet| == 32 && Ascending(alphabet)
    ensures Less(Encode(v, alphabet, n), Encode(w, alphabet, n)) <==> v % Pow32(n) < w % Pow32(n)
  {
    if n > 0 {
      var (a, b) := (Encode(v / 32, alphabet, n - 1), Encode(w / 32, alphabet, n - 1));
      var (x, y) := ([alphabet[v % 32]], [alphabet[w % 32]]);
      EncodeOrder(v / 32, w / 32, alphabet, n - 1);
      EncodeInjective(v / 32, w / 32, alphabet, n - 1);
      LessConcat(a, b, x, y);
      assert Less(x, y) <==> v % 32 < w % 32;
      SplitModulo(v, Pow32(n - 1));
      SplitModulo(w, Pow32(n - 1));
    }
  }

  lemma CrockfordAscends()
    ensures |CROCKFORD| == 32 && Ascending(CROCKFORD)
  {
    assert forall i :: 0 <= i < 31 ==> CROCKFORD[i] < CROCKFORD[i + 1];
    forall i, j | 0 <= i < j < 32
      ensures CROCKFORD[i] < CROCKFORD[j]
    {
      NeighboursAscend(CROCKFORD, i, j);
    }
  }

  lemma {:induction false} NeighboursAscend(s: string, i: nat, j: nat)
    requires forall k :: 0 <= k < |s| - 1 ==> s[k] < s[k + 1]
    requires i < j < |s|
    ensures s[i] < s[j]
    decreases j - i
  {
    assert s[i] < s[i + 1];
    if i + 1 < j {
      NeighboursAscend(s, i + 1, j);
    }
  }

  /** The id of an attempt that starts at the given millisecond; the hash depends on message,
      worker, clock and random bytes, and may be any 32-bit value. */
  function GenerateAttemptId(nowMs: nat, hash: nat): string {
    "att_" + Encode(nowMs, CROCKFORD, TIME_DIGITS) + Encode(hash, CROCKFORD, HASH_DIGITS)
  }

  lemma PrefixedOrder(p: string, t: string, t': string, h: string, h': string)
    requires |t| == |t'| && |h| == |h'|
    ensures Less(p + t + h, p + t' + h') <==> Less(t, t') || (t == t' && Less(h, h'))
    ensures p + t + h == p + t' + h' <==> t == t' && h == h'
  {
    Irreflexive(p);
    LessConcat(p, p, t, t');
    LessConcat(p + t, p + t', h, h');
    if p + t + h == p + t' + h' {
      var s, s' := p + t + h, p + t' + h';
      assert s[|p|..|p| + |t|] == t && s'[|p|..|p| + |t|] == t';
      assert s[|p| + |t|..] == h && s'[|p| + |t|..] == h';
    }
    if t != t' {
      assert (p + t)[|p|..] == t && (p + t')[|p|..] == t';
    }
  }

  /** Ids sort by their millisecond first and then by the thirty bits of the hash they keep: an id
      from a later millisecond sorts strictly later, until ten digits no longer hold the clock. */
  lemma AttemptIdsSortByTime(ms: nat, ms': nat, hash: nat, hash': nat)
    ensures var (t, t') := (ms % Pow32(TIME_DIGITS), ms' % Pow32(TIME_DIGITS));
            var (h, h') := (hash % Pow32(HASH_DIGITS), hash' % Pow32(HASH_DIGITS));
            && (Less(GenerateAttemptId(ms, hash), GenerateAttemptId(ms', hash')) <==> t < t' || (t == t' && h < h'))
            && (GenerateAttemptId(ms, hash) == GenerateAttemptId(ms', hash') <==> t == t' && h == h')
  {
    CrockfordAscends();
    var (t, t') := (Encode(ms, CROCKFORD, TIME_DIGITS), Encode(ms', CROCKFORD, TIME_DIGITS));
    var (h, h') := (Encode(hash, CROCKFORD, HASH_DIGITS), Encode(hash', CROCKFORD, HASH_DIGITS));
    FieldOrder(ms, ms', TIME_DIGITS);
    FieldOrder(hash, hash', HASH_DIGITS);
    PrefixedOrder("att_", t, t', h, h');
  }

  lemma FieldOrder(v: nat, w: nat, n: nat)
    ensures |CROCKFORD| == 32
    ensures Less(Encode(v, CROCKFORD, n), Encode(w, CROCKFORD, n)) <==> v % Pow32(n) < w % Pow32(n)
    ensures Encode(v, CROCKFORD, n) == Encode(w, CROCKFORD, n) <==> v % Pow32(n) == w % Pow32(n)
  {
    CrockfordAscends();
    EncodeOrder(v, w, CROCKFORD, n);
    EncodeInjective(v, w, CROCKFORD, n);
  }
  /** An id is twenty characters: the prefix, ten that decode to the milliseconds and six that decode to
      the hash, as far as so many digits hold them. */
  lemma AttemptIdShape(ms: nat, hash: nat)
    ensures var id := GenerateAttemptId(ms, hash);
            && |id| == 20 && id[..4] == "att_"
            && Decode(id[4..14], "0123456789ABCDEFGHJKMNPQRSTVWXYZ") == ms % 0x4_0000_0000_0000
            && Decode(id[14..], "0123456789ABCDEFGHJKMNPQRSTVWXYZ") == hash % 0x4000_0000
  {
    CrockfordAscends();
    DecodeEncode(ms, CROCKFORD, TIME_DIGITS);
    DecodeEncode(hash, CROCKFORD, HASH_DIGITS);
    PowersOf32();
    var id := GenerateAttemptId(ms, hash);
    assert id[4..14] == Encode(ms, CROCKFORD, TIME_DIGITS) && id[14..] == Encode(hash, CROCKFORD, HASH_DIGITS);
  }

  lemma PowersOf32()
    ensures Pow32(TIME_DIGITS) == 0x4_0000_0000_0000 && Pow32(HASH_DIGITS) == 0x4000_0000
  {
    assert Pow32(2) == 1024 && Pow32(3) == 32768 && Pow32(4) == 0x10_0000;
    assert Pow32(5) == 0x200_0000 && Pow32(6) == 0x4000_0000;
    assert Pow32(7) == 0x8_0000_0000 && Pow32(8) == 0x100_0000_0000;
    assert Pow32(9) == 0x2000_0000_0000;
  }
}

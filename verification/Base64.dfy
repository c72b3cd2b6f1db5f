/**
 Base64 as section 4 of RFC 4648 defines it, and the two helpers of the host tool
 that carry signed CSI samples through it (`base64_encode_bin`, `base64_decode_bin`).
 A byte is an integer in [0, 256); a character stands for the byte with its code.
 */
module Base64 {
  import opened Options

  predicate IsByte(b: int) { 0 <= b < 256 }

  predicate AllBytes(b: seq<int>) { forall k | 0 <= k < |b| :: IsByte(b[k]) }

  /** Neither padding nor a character with a meaning in a replayed line. */
  predicate Plain(c: char) { c != '=' && c != ',' && c != '\n' && c != '\0' }

  // ---------- the alphabet ----------

  function Digit(i: int): (c: char)
    requires 0 <= i < 64
  {
    if i < 26 then (i + 65) as char        // A-Z
    else if i < 52 then (i + 71) as char   // a-z
    else if i < 62 then (i - 4) as char    // 0-9
    else if i == 62 then '+'
    else '/'
  }

  /** The 6-bit value of an alphabet character, -1 for any other character. */
  function Value(c: char): (v: int)
    ensures -1 <= v < 64
    ensures v >= 0 ==> Digit(v) == c
  {
    var n := c as int;
    if 65 <= n <= 90 then n - 65
    else if 97 <= n <= 122 then n - 71
    else if 48 <= n <= 57 then n + 4
    else if c == '+' then 62
    else if c == '/' then 63
    else -1
  }

  lemma ValueOfDigit(i: int)
    requires 0 <= i < 64
    ensures Value(Digit(i)) == i
    ensures Plain(Digit(i))
  {
  }

  /** Table 1 of RFC 4648: where its stretches begin and end, and that they run without gaps. */
  lemma DigitsAreTable(i: int)
    ensures Digit(0) == 'A' && Digit(25) == 'Z' && Digit(26) == 'a' && Digit(51) == 'z'
    ensures Digit(52) == '0' && Digit(61) == '9' && Digit(62) == '+' && Digit(63) == '/'
    ensures 0 <= i < 61 && i != 25 && i != 51 ==> Digit(i + 1) as int == Digit(i) as int + 1
  {
  }

  // ---------- encoding and decoding of bytes ----------

  function Quad(x: int, y: int, z: int): (q: string)
    requires IsByte(x) && IsByte(y) && IsByte(z)
    ensures |q| == 4
  {
    [Digit(x / 4), Digit(x % 4 * 16 + y / 16), Digit(y % 16 * 4 + z / 64), Digit(z % 64)]
  }

  function Encode(b: seq<int>): string
    requires AllBytes(b)
  {
    if |b| == 0 then ""
    else if |b| == 1 then Quad(b[0], 0, 0)[..2] + "=="
    else if |b| == 2 then Quad(b[0], b[1], 0)[..3] + "="
    else Quad(b[0], b[1], b[2]) + Encode(b[3..])
  }

  /** The three bytes that four 6-bit values spell. */
  function Triple(i: int, j: int, k: int, l: int): (t: seq<int>)
    requires 0 <= i < 64 && 0 <= j < 64 && 0 <= k < 64 && 0 <= l < 64
    ensures |t| == 3 && AllBytes(t)
  {
    [4 * i + j / 16, j % 16 * 16 + k / 4, k % 4 * 64 + l]
  }

  function Decode(s: string): (r: Option<seq<int>>)
    ensures r.Some? ==> AllBytes(r.value)
  {
    if |s| == 0 then Some([])
    else if |s| < 4 then None
    else
      var i, j, k, l := Value(s[0]), Value(s[1]), Value(s[2]), Value(s[3]);
      if i < 0 || j < 0 then None
      else if |s| == 4 && s[2] == '=' && s[3] == '=' then Some(Triple(i, j, 0, 0)[..1])
      else if k < 0 then None
      else if |s| == 4 && s[3] == '=' then Some(Triple(i, j, k, 0)[..2])
      else if l < 0 then None
      else
        match Decode(s[4..])
        case None => None
        case Some(rest) => Some(Triple(i, j, k, l) + rest)
  }

  /** The 24-bit number that the four characters from `at` on spell. */
  function GroupNumber(s: string, at: nat): int
    requires at + 4 <= |s|
  {
    262144 * Value(s[at]) + 4096 * Value(s[at + 1]) + 64 * Value(s[at + 2]) + Value(s[at + 3])
  }

  function BytesNumber(b: seq<int>, at: nat): int
    requires at + 3 <= |b|
  {
    65536 * b[at] + 256 * b[at + 1] + b[at + 2]
  }

  lemma TripleSplits(x: int, y: int, z: int)
    requires IsByte(x) && IsByte(y) && IsByte(z)
    ensures Triple(x / 4, x % 4 * 16 + y / 16, y % 16 * 4 + z / 64, z % 64) == [x, y, z]
  {
    var j, k := x % 4 * 16 + y / 16, y % 16 * 4 + z / 64;
    assert j / 16 == x % 4 && j % 16 == y / 16;
    assert k / 4 == y % 16 && k % 4 == z / 64;
  }

  lemma QuadValues(x: int, y: int, z: int)
    requires IsByte(x) && IsByte(y) && IsByte(z)
    ensures var q := Quad(x, y, z);
            && Value(q[0]) == x / 4
            && Value(q[1]) == x % 4 * 16 + y / 16
            && Value(q[2]) == y % 16 * 4 + z / 64
            && Value(q[3]) == z % 64
            && Plain(q[0]) && Plain(q[1]) && Plain(q[2]) && Plain(q[3])
  {
    ValueOfDigit(x / 4);
    ValueOfDigit(x % 4 * 16 + y / 16);
    ValueOfDigit(y % 16 * 4 + z / 64);
    ValueOfDigit(z % 64);
  }

  lemma QuadNumber(x: int, y: int, z: int)
    requires IsByte(x) && IsByte(y) && IsByte(z)
    ensures GroupNumber(Quad(x, y, z), 0) == 65536 * x + 256 * y + z
  {
    QuadValues(x, y, z);
  }

  /** Decoding undoes encoding, in all three padding cases. */
  lemma {:induction false} DecodeEncode(b: seq<int>)
    requires AllBytes(b)
    ensures Decode(Encode(b)) == Some(b)
  {
    if |b| == 1 {
      DecodeOne(b[0]);
      assert b == [b[0]];
    } else if |b| == 2 {
      DecodeTwo(b[0], b[1]);
      assert b == [b[0], b[1]];
    } else if |b| >= 3 {
      var more := b[3..];
      assert b == [b[0], b[1], b[2]] + more;
      DecodeEncode(more);
      DecodeThree(b[0], b[1], b[2], more);
    }
  }

  lemma DecodeThree(x: int, y: int, z: int, more: seq<int>)
    requires IsByte(x) && IsByte(y) && IsByte(z) && AllBytes(more) && Decode(Encode(more)) == Some(more)
    ensures Decode(Encode([x, y, z] + more)) == Some([x, y, z] + more)
  {
    assert ([x, y, z] + more)[3..] == more;
    QuadValues(x, y, z);
    TripleSplits(x, y, z);
    DecodeGroup(Quad(x, y, z), Encode(more));
  }

  lemma DecodeOne(x: int)
    requires IsByte(x)
    ensures Decode(Encode([x])) == Some([x])
  {
    var s, q := Encode([x]), Quad(x, 0, 0);
    QuadValues(x, 0, 0);
    TripleSplits(x, 0, 0);
    assert s == [q[0], q[1], '=', '='];
    assert Triple(Value(s[0]), Value(s[1]), 0, 0)[..1] == [x];
  }

  lemma DecodeTwo(x: int, y: int)
    requires IsByte(x) && IsByte(y)
    ensures Decode(Encode([x, y])) == Some([x, y])
  {
    var s, q := Encode([x, y]), Quad(x, y, 0);
    QuadValues(x, y, 0);
    TripleSplits(x, y, 0);
    assert s == [q[0], q[1], q[2], '='];
    assert Triple(Value(s[0]), Value(s[1]), Value(s[2]), 0)[..2] == [x, y];
  }

  lemma DecodeGroup(q: string, t: string)
    requires |q| == 4 && Value(q[0]) >= 0 && Value(q[1]) >= 0 && Value(q[2]) >= 0 && Value(q[3]) >= 0
    requires q[2] != '=' && q[3] != '=' && Decode(t).Some?
    ensures Decode(q + t) == Some(Triple(Value(q[0]), Value(q[1]), Value(q[2]), Value(q[3])) + Decode(t).value)
  {
    var s := q + t;
    assert s[4..] == t;
  }

  predicate EncodedText(s: string) { forall k | 0 <= k < |s| :: s[k] == '=' || Plain(s[k]) }

  lemma EncodedTextConcat(s: string, t: string)
    requires EncodedText(s) && EncodedText(t)
    ensures EncodedText(s + t)
  {
  }

  /** The encoded text has four characters for every started group of three bytes, none of
      them a comma, a newline or a NUL. */
  lemma {:induction false} EncodePlain(b: seq<int>)
    requires AllBytes(b)
    ensures |Encode(b)| == (|b| + 2) / 3 * 4
    ensures EncodedText(Encode(b))
  {
    hide Value, Digit, Plain;
    if |b| >= 3 {
      var q, more := Quad(b[0], b[1], b[2]), b[3..];
      QuadValues(b[0], b[1], b[2]);
      EncodePlain(more);
      EncodedTextConcat(q, Encode(more));
    } else if |b| > 0 {
      var y := if |b| == 2 then b[1] else 0;
      QuadValues(b[0], y, 0);
      EncodedTextConcat(Quad(b[0], y, 0)[..|b| + 1], if |b| == 2 then "=" else "==");
    }
  }

  /** Group `g` of the encoded text spells the same 24-bit number as bytes `3g`, `3g + 1` and
      `3g + 2` (section 4 of RFC 4648). */
  lemma {:induction false} EncodeGroups(b: seq<int>, g: nat)
    requires AllBytes(b) && 3 * g + 2 < |b|
    ensures 4 * g + 4 <= |Encode(b)|
    ensures GroupNumber(Encode(b), 4 * g) == BytesNumber(b, 3 * g)
  {
    var q, t := Quad(b[0], b[1], b[2]), Encode(b[3..]);
    assert Encode(b) == q + t;
    if g == 0 {
      QuadNumber(b[0], b[1], b[2]);
    } else {
      EncodeGroups(b[3..], g - 1);
      LaterGroup(q, t, b, g);
    }
  }

  lemma LaterGroup(q: string, t: string, b: seq<int>, g: nat)
    requires |q| == 4 && 0 < g && 3 * g + 2 < |b| && 4 * g <= |t|
    requires GroupNumber(t, 4 * (g - 1)) == BytesNumber(b[3..], 3 * (g - 1))
    ensures GroupNumber(q + t, 4 * g) == BytesNumber(b, 3 * g)
  {
    var at := 4 * (g - 1);
    assert (q + t)[4 * g] == t[at] && (q + t)[4 * g + 1] == t[at + 1];
    assert (q + t)[4 * g + 2] == t[at + 2] && (q + t)[4 * g + 3] == t[at + 3];
  }

  /** The last of the groups that `s` spells is one or two bytes followed by zero bits up to the next
      character, and padding stands for the characters that are missing. */
  predicate EndsPadded(s: string, b: seq<int>) {
    var m, n := |s|, |b|;
    && m >= 4 && n % 3 != 0
    && if n % 3 == 1
       then s[m - 2] == s[m - 1] == '=' && 64 * Value(s[m - 4]) + Value(s[m - 3]) == 16 * b[n - 1]
       else s[m - 1] == '='
            && 4096 * Value(s[m - 4]) + 64 * Value(s[m - 3]) + Value(s[m - 2]) == 4 * (256 * b[n - 2] + b[n - 1])
  }

  lemma EndsPaddedLater(q: string, t: string, b: seq<int>)
    requires |b| > 3 && EndsPadded(t, b[3..])
    ensures EndsPadded(q + t, b)
  {
    hide Value;
    var s, n, m := q + t, |t|, |b| - 3;
    assert s[|s| - 1] == t[n - 1] && s[|s| - 2] == t[n - 2] && s[|s| - 3] == t[n - 3] && s[|s| - 4] == t[n - 4];
    assert b[|b| - 1] == b[3..][m - 1] && |b| % 3 == m % 3;
    assert m % 3 == 2 ==> b[|b| - 2] == b[3..][m - 2];
  }

  /** Bytes that do not fill the last group are encoded with padding (section 4 of RFC 4648). */
  lemma {:induction false} EncodeLastGroup(b: seq<int>)
    requires AllBytes(b) && |b| % 3 != 0
    ensures EndsPadded(Encode(b), b)
  {
    if |b| >= 3 {
      hide Value, Quad, EndsPadded;
      EncodeLastGroup(b[3..]);
      EndsPaddedLater(Quad(b[0], b[1], b[2]), Encode(b[3..]), b);
    } else {
      EncodeOnlyGroup(b);
    }
  }

  lemma EncodeOnlyGroup(b: seq<int>)
    requires AllBytes(b) && 1 <= |b| <= 2
    ensures EndsPadded(Encode(b), b)
  {
    hide Value, Digit;
    var y := if |b| == 2 then b[1] else 0;
    var s, q := Encode(b), Quad(b[0], y, 0);
    QuadValues(b[0], y, 0);
    if |b| == 1 {
      assert s == [q[0], q[1], '=', '='];
    } else {
      assert s == [q[0], q[1], q[2], '='];
    }
  }

  // ---------- which texts decode ----------

  /** How many padding characters end `s`: none, one or two. */
  function Padding(s: string): nat {
    if |s| >= 2 && s[|s| - 2] == '=' && s[|s| - 1] == '=' then 2
    else if |s| >= 1 && s[|s| - 1] == '=' then 1
    else 0
  }

  /** Whole groups, and nothing but the alphabet before the padding. */
  predicate WellFormed(s: string) {
    |s| % 4 == 0 && forall k | 0 <= k < |s| - Padding(s) :: Value(s[k]) >= 0
  }

  lemma {:induction false} DecodesExactly(s: string)
    ensures Decode(s).Some? <==> WellFormed(s)
  {
    if |s| > 4 {
      hide WellFormed, Value;
      DecodeStep(s);
      DecodesExactly(s[4..]);
      WellFormedTail(s);
    } else if |s| == 4 {
      OneGroup(s);
    }
  }

  lemma DecodeStep(s: string)
    requires |s| > 4
    ensures Decode(s).Some? <==> Decode(s[4..]).Some? && forall k | 0 <= k < 4 :: Value(s[k]) >= 0
  {
    hide Triple, AllBytes;
    assert (forall k | 0 <= k < 4 :: Value(s[k]) >= 0) <==>
      Value(s[0]) >= 0 && Value(s[1]) >= 0 && Value(s[2]) >= 0 && Value(s[3]) >= 0;
  }

  lemma PaddingHasNoValue()
    ensures Value('=') == -1
  {
  }

  lemma OneGroup(s: string)
    requires |s| == 4
    ensures Decode(s).Some? <==> WellFormed(s)
  {
    PaddingHasNoValue();
    hide Value, Digit;
    assert s[4..] == "";
    assert WellFormed(s) <==>
      && Value(s[0]) >= 0 && Value(s[1]) >= 0
      && (Padding(s) == 2 || (Value(s[2]) >= 0 && (Padding(s) == 1 || Value(s[3]) >= 0)));
  }

  lemma WellFormedTail(s: string)
    requires |s| > 4
    ensures WellFormed(s) <==> WellFormed(s[4..]) && forall k | 0 <= k < 4 :: Value(s[k]) >= 0
  {
    var t := s[4..];
    if |s| % 4 != 0 {
      return;
    }
    assert Padding(t) == Padding(s);
    assert forall k | 0 <= k < |t| :: t[k] == s[k + 4];
    if WellFormed(t) && forall k | 0 <= k < 4 :: Value(s[k]) >= 0 {
      forall k | 0 <= k < |s| - Padding(s) ensures Value(s[k]) >= 0 {
        if k >= 4 {
          assert s[k] == t[k - 4];
        }
      }
    }
  }

  // ---------- signed samples ----------

  function Unsigned(v: int): int { if v < 0 then 256 + v else v }

  function Signed(b: int): int { if b > 127 then b - 256 else b }

  function AllUnsigned(x: seq<int>): seq<int> { seq(|x|, k requires 0 <= k < |x| => Unsigned(x[k])) }

  function AllSigned(b: seq<int>): seq<int> { seq(|b|, k requires 0 <= k < |b| => Signed(b[k])) }

  predicate Int8(v: int) { -128 <= v <= 127 }

  predicate AllInt8(x: seq<int>) { forall k | 0 <= k < |x| :: Int8(x[k]) }

  /** What `base64_encode_bin` returns: `bytes()` refuses a value outside [0, 256) and the
      handler then leaves the placeholder text in place. */
  function EncodeBin(x: seq<int>): string {
    if AllBytes(AllUnsigned(x)) then Encode(AllUnsigned(x)) else "test"
  }

  /** What `base64_decode_bin` returns; None where it raises. */
  function DecodeBin(s: string): Option<seq<int>> {
    match Decode(s)
    case None => None
    case Some(b) => Some(AllSigned(b))
  }

  /** An 8-bit sample is sent as its two's complement byte. */
  lemma UnsignedIsModulo(v: int)
    ensures Int8(v) ==> Unsigned(v) == v % 256
    ensures IsByte(Unsigned(v)) && Signed(Unsigned(v)) == v <==> Int8(v)
  {
  }

  method EncodeBinInPlace(a: array<int>) returns (s: string)
    modifies a
    ensures a[..] == AllUnsigned(old(a[..]))
    ensures s == EncodeBin(old(a[..]))
  {
    for i := 0 to a.Length
      invariant forall k | 0 <= k < i :: a[k] == Unsigned(old(a[k]))
      invariant forall k | i <= k < a.Length :: a[k] == old(a[k])
    {
      if a[i] < 0 {
        a[i] := 256 + a[i];
      }
    }
    assert a[..] == AllUnsigned(old(a[..]));
    s := "test";
    if AllBytes(a[..]) {
      s := Encode(a[..]);
    }
  }

  method DecodeBinInPlace(s: string) returns (r: Option<seq<int>>)
    ensures r == DecodeBin(s)
  {
    var bin := Decode(s);
    if bin.None? {
      return None;
    }
    var data := new int[|bin.value|](k requires 0 <= k < |bin.value| => bin.value[k]);
    for i := 0 to data.Length
      invariant forall k | 0 <= k < i :: data[k] == Signed(bin.value[k])
      invariant forall k | i <= k < data.Length :: data[k] == bin.value[k]
    {
      if data[i] > 127 {
        data[i] := data[i] - 256;
      }
    }
    assert data[..] == AllSigned(bin.value);
    r := Some(data[..]);
  }

  /** The signed round trip is the identity on exactly the lists of 8-bit samples:
      larger values come back reduced, and unencodable lists come back as the
      three samples that the placeholder text decodes to. */
  lemma SignedRoundTrip(x: seq<int>)
    ensures DecodeBin(EncodeBin(x)) == Some(x) <==> AllInt8(x)
  {
    var u := AllUnsigned(x);
    if AllBytes(u) {
      DecodeEncode(u);
      var y := AllSigned(u);
      assert forall k | 0 <= k < |x| :: IsByte(u[k]) && (y[k] == x[k] <==> Int8(x[k]));
      assert AllInt8(x) ==> y == x;
    } else {
      var k :| 0 <= k < |u| && !IsByte(u[k]);
      assert !Int8(x[k]);
      PlaceholderDecodes();
      assert AllInt8([-75, -21, 45]);
    }
  }

  lemma PlaceholderDecodes()
    ensures DecodeBin("test") == Some([-75, -21, 45])
  {
    var s := "test";
    assert Value('t') == 45 && Value('e') == 30 && Value('s') == 44;
    DecodeGroup(s, "");
    assert s + "" == s;
    assert Triple(45, 30, 44, 45) == [181, 235, 45];
    assert Triple(45, 30, 44, 45) + [] == [181, 235, 45];
    assert Decode(s) == Some([181, 235, 45]);
    assert AllSigned([181, 235, 45]) == [-75, -21, 45];
  }
}

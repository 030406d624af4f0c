/** The base64 the manifest carries: a padded writer, and a reader that skips what it does not know. */
module Base64 {
  import opened Bytes

  // --- Reading ------------------------------------------------------------------------

  /** The 6-bit value of a character, `None` for one that is skipped. */
  function Sextet(c: char): (r: Option<nat>)
    ensures r.Some? ==> r.value < 64
  {
    if 'A' <= c <= 'Z' then Some(c as int - 'A' as int)
    else if 'a' <= c <= 'z' then Some(c as int - 'a' as int + 26)
    else if '0' <= c <= '9' then Some(c as int - '0' as int + 52)
    else if c == '+' then Some(62)
    else if c == '/' then Some(63)
    else if c == '=' || c == '`' then Some(0)
    else None
  }

  /** The characters that count. */
  function Kept(s: string): (k: string)
    ensures forall i :: 0 <= i < |k| ==> Sextet(k[i]).Some?
  {
    if s == "" then "" else (if Sextet(s[0]).Some? then [s[0]] else "") + Kept(s[1..])
  }

  predicate Known(q: string) {
    forall i :: 0 <= i < |q| ==> Sextet(q[i]).Some?
  }

  /** How many bytes a group yields: one fewer for each `=` in its last two places. */
  function Yield(q: string): int {
    3 - (if |q| > 2 && q[2] == '=' then 1 else 0) - (if |q| > 3 && q[3] == '=' then 1 else 0)
  }

  function Bits(a: nat, b: nat, c: nat, d: nat): nat {
    a * 262144 + b * 4096 + c * 64 + d
  }

  function BytesOf(v: nat, count: int): seq<Byte> {
    [v / 65536 % 256] + (if count > 1 then [v / 256 % 256] else []) + (if count > 2 then [v % 256] else [])
  }

  function Quad(q: string): seq<Byte>
    requires |q| == 4 && Known(q)
  {
    BytesOf(Bits(Sextet(q[0]).value, Sextet(q[1]).value, Sextet(q[2]).value, Sextet(q[3]).value), Yield(q))
  }

  /** Complete groups of four; an incomplete last group is dropped. */
  function Decoded(k: string): seq<Byte>
    requires Known(k)
  {
    if |k| < 4 then [] else Quad(k[..4]) + Decoded(k[4..])
  }

  lemma DecodedGroup(q: string, rest: string)
    requires |q| == 4 && Known(q) && Known(rest)
    ensures Decoded(q + rest) == Quad(q) + Decoded(rest)
  {
    assert (q + rest)[..4] == q && (q + rest)[4..] == rest;
  }

  lemma KeptStep(q: string, s: string, i: nat)
    requires i < |s|
    ensures q + Kept(s[i..]) == (if Sextet(s[i]).Some? then q + [s[i]] else q) + Kept(s[i + 1..])
  {
    assert s[i..][1..] == s[i + 1..];
  }

  /** The accumulator holds the values of an incomplete group. */
  ghost predicate Holding(acc: seq<nat>, got: int, q: string) {
    && Known(q) && |q| == |acc| && got == Yield(q)
    && forall j :: 0 <= j < |q| ==> acc[j] == Sextet(q[j]).value
  }

  lemma HoldingGrows(acc: seq<nat>, got: int, q: string, c: char)
    requires Holding(acc, got, q) && |q| < 4 && Sextet(c).Some?
    ensures Holding(acc + [Sextet(c).value], if c == '=' && |acc| + 1 > 2 then got - 1 else got, q + [c])
  {
  }

  lemma Emit(acc: seq<nat>, got: int, q: string, rest: string, out: seq<Byte>)
    requires Holding(acc, got, q) && |q| == 4 && Known(rest)
    ensures out + Decoded(q + rest) == out + BytesOf(Bits(acc[0], acc[1], acc[2], acc[3]), got) + Decoded("" + rest)
  {
    DecodedGroup(q, rest);
    assert "" + rest == rest;
  }

  /** `decode_b64`. */
  method Decode(s: string) returns (out: seq<Byte>)
    ensures out == Decoded(Kept(s))
  {
    out := [];
    var acc: seq<nat>, got := [], 3;
    ghost var q := "";
    assert s[0..] == s && "" + Kept(s) == Kept(s);
    for i := 0 to |s|
      invariant Holding(acc, got, q) && |q| < 4
      invariant Decoded(Kept(s)) == out + Decoded(q + Kept(s[i..]))
    {
      var c := s[i];
      KeptStep(q, s, i);
      var sextet := Sextet(c);
      if sextet.Some? {
        HoldingGrows(acc, got, q, c);
        acc, q := acc + [sextet.value], q + [c];
        if c == '=' && |acc| > 2 {
          got := got - 1;
        }
        if |acc| == 4 {
          Emit(acc, got, q, Kept(s[i + 1..]), out);
          out := out + BytesOf(Bits(acc[0], acc[1], acc[2], acc[3]), got);
          acc, got, q := [], 3, "";
        }
      }
    }
    assert s[|s|..] == "" && q + Kept("") == q;
  }

  // --- Writing ------------------------------------------------------------------------

  function Letter(n: nat): char
    requires n < 64
  {
    if n < 26 then (n + 'A' as int) as char
    else if n < 52 then (n - 26 + 'a' as int) as char
    else if n < 62 then (n - 52 + '0' as int) as char
    else if n == 62 then '+' else '/'
  }

  function Bits24(x: nat, y: nat, z: nat): nat {
    x * 65536 + y * 256 + z
  }

  /** The four characters for one to three bytes. */
  function Group(b: seq<Byte>): string
    requires 1 <= |b| <= 3
  {
    var n := Bits24(b[0], if |b| > 1 then b[1] else 0, if |b| > 2 then b[2] else 0);
    [ Letter(n / 262144 % 64), Letter(n / 4096 % 64),
      if |b| > 1 then Letter(n / 64 % 64) else '=', if |b| > 2 then Letter(n % 64) else '=' ]
  }

  function Encoded(b: seq<Byte>): string {
    if b == [] then "" else Group(b[..Min(3, |b|)]) + Encoded(b[Min(3, |b|)..])
  }

  lemma EncodedAt(b: seq<Byte>, i: nat, n: nat, out: string)
    requires i < |b| && n == Min(3, |b| - i)
    ensures out + Encoded(b[i..]) == out + Group(b[i..i + n]) + Encoded(b[i + n..])
  {
    assert b[i..][..n] == b[i..i + n] && b[i..][n..] == b[i + n..];
  }

  /** `encode_b64`. */
  method Encode(b: seq<Byte>) returns (out: string)
    ensures out == Encoded(b)
  {
    out := "";
    var i := 0;
    while i < |b|
      invariant i <= |b| && Encoded(b) == out + Encoded(b[i..])
    {
      var n := Min(3, |b| - i);
      EncodedAt(b, i, n, out);
      out := out + Group(b[i..i + n]);
      i := i + n;
    }
  }

  lemma LetterIs(n: nat)
    requires n < 64
    ensures Sextet(Letter(n)) == Some(n) && Letter(n) != '='
  {
  }

  lemma BitsOf(n: nat)
    requires n < 16777216
    ensures Bits(n / 262144 % 64, n / 4096 % 64, n / 64 % 64, n % 64) == n
  {
    var a, b, c := n / 64, n / 64 / 64, n / 64 / 64 / 64;
    assert n / 4096 == b && n / 262144 == c && c < 64;
  }

  lemma ByteParts(x: Byte, y: Byte, z: Byte)
    ensures var n := Bits24(x, y, z);
            n < 16777216 && n / 65536 % 256 == x && n / 256 % 256 == y && n % 256 == z
  {
  }

  lemma QuadOf(q: string, n: nat)
    requires |q| == 4 && Known(q) && n < 16777216
    requires Sextet(q[0]).value == n / 262144 % 64 && Sextet(q[1]).value == n / 4096 % 64
    requires Sextet(q[2]).value == n / 64 % 64 && Sextet(q[3]).value == n % 64
    ensures Quad(q) == BytesOf(n, Yield(q))
  {
    BitsOf(n);
  }

  lemma MultipleOf64(k: nat)
    ensures 64 * k % 64 == 0 && 64 * k / 64 == k
  {
  }

  /** Missing bytes leave the bits under the padding zero. */
  lemma PaddedBits(x: Byte, y: Byte)
    ensures Bits24(x, 0, 0) / 64 % 64 == 0 && Bits24(x, y, 0) % 64 == 0
  {
    MultipleOf64(x * 16);
    MultipleOf64(64 * (x * 16));
    MultipleOf64(x * 1024 + y * 4);
    assert Bits24(x, 0, 0) == 64 * (64 * (x * 16));
    assert Bits24(x, y, 0) == 64 * (x * 1024 + y * 4);
  }

  lemma GroupRoundTrip(b: seq<Byte>)
    requires 1 <= |b| <= 3
    ensures Known(Group(b)) && Quad(Group(b)) == b
  {
    var y: Byte, z: Byte := if |b| > 1 then b[1] else 0, if |b| > 2 then b[2] else 0;
    var n := Bits24(b[0], y, z);
    ByteParts(b[0], y, z);
    PaddedBits(b[0], y);
    var g := Group(b);
    GroupSextets(b, n);
    QuadOf(g, n);
    assert BytesOf(n, |b|) == b;
  }

  lemma GroupSextets(b: seq<Byte>, n: nat)
    requires 1 <= |b| <= 3
    requires n == Bits24(b[0], if |b| > 1 then b[1] else 0, if |b| > 2 then b[2] else 0)
    requires |b| < 2 ==> n / 64 % 64 == 0
    requires |b| < 3 ==> n % 64 == 0
    ensures var g := Group(b);
            && Known(g)
            && Sextet(g[0]).value == n / 262144 % 64 && Sextet(g[1]).value == n / 4096 % 64
            && Sextet(g[2]).value == n / 64 % 64 && Sextet(g[3]).value == n % 64
            && Yield(g) == |b|
  {
    var s0, s1, s2, s3 := n / 262144 % 64, n / 4096 % 64, n / 64 % 64, n % 64;
    LetterIs(s0);
    LetterIs(s1);
    LetterIs(s2);
    LetterIs(s3);
    var g := Group(b);
    assert g == [Letter(s0), Letter(s1), if |b| > 1 then Letter(s2) else '=', if |b| > 2 then Letter(s3) else '='];
  }

  lemma {:induction false} KeptAll(k: string)
    requires Known(k)
    ensures Kept(k) == k
  {
    if k != "" {
      KeptAll(k[1..]);
    }
  }

  lemma {:induction false} EncodedDecodes(b: seq<Byte>)
    ensures Known(Encoded(b)) && Decoded(Encoded(b)) == b
  {
    if b != [] {
      var n := Min(3, |b|);
      GroupRoundTrip(b[..n]);
      EncodedDecodes(b[n..]);
      DecodedGroup(Group(b[..n]), Encoded(b[n..]));
      assert b[..n] + b[n..] == b;
    }
  }

  /** What the writer prints, the reader reads: `decode_b64(encode_b64(b)) == b`. */
  lemma RoundTrip(b: seq<Byte>)
    ensures Decoded(Kept(Encoded(b))) == b
  {
    EncodedDecodes(b);
    KeptAll(Encoded(b));
  }

  // --- Against RFC 4648 ----------------------------------------------------------------

  /** Digits of a base, most significant first. */
  function Positional(base: nat, digits: seq<nat>): nat {
    if digits == [] then 0 else Positional(base, digits[..|digits| - 1]) * base + digits[|digits| - 1]
  }

  /** Table 1: the letters, the small letters, the figures, then `+` and `/`. */
  lemma Alphabet(n: nat)
    requires n < 64
    ensures Letter(0) == 'A' && Letter(25) == 'Z' && Letter(26) == 'a' && Letter(51) == 'z'
    ensures Letter(52) == '0' && Letter(61) == '9' && Letter(62) == '+' && Letter(63) == '/'
    ensures n !in [25, 51, 61, 62, 63] ==> Letter(n + 1) as int == Letter(n) as int + 1
  {
  }

  /** Every other character is skipped but `=` and, as LibreOffice has it, the backquote. */
  lemma KeptExactly(c: char)
    ensures Sextet(c).Some? <==>
              || (exists n :: 0 <= n < 64 && Letter(n) == c)
              || c == '=' || c == '`'
    ensures Sextet('=') == Sextet('`') == Some(0)
  {
    var r := Sextet(c);
    if r.Some? && c != '=' && c != '`' {
      assert Letter(r.value) == c;
    }
    if n :| 0 <= n < 64 && Letter(n) == c {
      LetterIs(n);
    }
  }

  /** Three bytes and the four characters for them are one 24-bit number. */
  lemma GroupIsNumber(b: seq<Byte>)
    requires |b| == 3
    ensures var g := Group(b);
            && |g| == 4 && Known(g)
            && Positional(256, [b[0], b[1], b[2]])
               == Positional(64, [Sextet(g[0]).value, Sextet(g[1]).value, Sextet(g[2]).value, Sextet(g[3]).value])
  {
    var n := Bits24(b[0], b[1], b[2]);
    ByteParts(b[0], b[1], b[2]);
    GroupSextets(b, n);
    BitsOf(n);
    ThreeDigits(b[0], b[1], b[2]);
    FourDigits(n / 262144 % 64, n / 4096 % 64, n / 64 % 64, n % 64);
  }

  lemma ThreeDigits(x: nat, y: nat, z: nat)
    ensures Positional(256, [x, y, z]) == x * 65536 + y * 256 + z
  {
    assert [x, y, z][..2] == [x, y] && [x, y][..1] == [x] && [x][..0] == [];
    assert Positional(256, [x]) == x && Positional(256, [x, y]) == x * 256 + y;
  }

  lemma FourDigits(a: nat, b: nat, c: nat, d: nat)
    ensures Positional(64, [a, b, c, d]) == a * 262144 + b * 4096 + c * 64 + d
  {
    assert [a, b, c, d][..3] == [a, b, c] && [a, b, c][..2] == [a, b] && [a, b][..1] == [a] && [a][..0] == [];
    assert Positional(64, [a]) == a && Positional(64, [a, b]) == a * 64 + b;
    assert Positional(64, [a, b, c]) == (a * 64 + b) * 64 + c;
  }

  /** A short last group is the full one for the bytes filled with zeros, cut to one character more than bytes, then padded. */
  lemma ShortGroup(b: seq<Byte>)
    requires 1 <= |b| <= 2
    ensures var full := Group(b + Zeros(3 - |b|));
            Group(b) == full[..|b| + 1] + if |b| == 1 then "==" else "="
  {
  }
}

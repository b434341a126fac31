/** Text helpers with Python's string semantics, restricted to what the
    forensic core uses: ASCII case folding and character classes, `rstrip`,
    `join`/`split`, zero-padded hexadecimal, decimal rendering, left
    justification, and the code-point ordering that `sorted` and SQL
    `ORDER BY` apply to strings. */
module Text {
  import opened Bytes

  predicate IsUpper(c: char) {
    'A' <= c <= 'Z'
  }

  /** `c.lower()` on ASCII letters; every other character is unchanged. */
  function LowerChar(c: char): char {
    if IsUpper(c) then (c as int + 32) as char else c
  }

  /** `s.lower()`. */
  function Lower(s: string): string {
    seq(|s|, i requires 0 <= i < |s| => LowerChar(s[i]))
  }

  lemma LowerIdempotent(s: string)
    ensures Lower(Lower(s)) == Lower(s)
  {
  }

  predicate IsDigit(c: char) {
    '0' <= c <= '9'
  }

  predicate IsLetter(c: char) {
    IsUpper(c) || 'a' <= c <= 'z'
  }

  /** `c.isalnum()` on ASCII. */
  predicate IsAlnum(c: char) {
    IsLetter(c) || IsDigit(c)
  }

  /** `s.rstrip(c)` for a single strip character. */
  function RStrip(s: string, c: char): (r: string)
    ensures IsPrefix(r, s)
    ensures r == [] || r[|r| - 1] != c
    ensures forall i :: |r| <= i < |s| ==> s[i] == c
  {
    if s != [] && s[|s| - 1] == c then RStrip(s[..|s| - 1], c) else s
  }

  /** `os.path.basename` of a POSIX path: the part after the last `/`,
      all of it when there is none. */
  function Basename(p: string): (r: string)
    ensures '/' !in r
    ensures IsSuffix(r, p)
    ensures |r| < |p| ==> p[|p| - |r| - 1] == '/'
  {
    if p == [] || p[|p| - 1] == '/' then []
    else Basename(p[..|p| - 1]) + [p[|p| - 1]]
  }

  /** `sep.join(parts)`. */
  function Join(parts: seq<string>, sep: string): string {
    if |parts| == 0 then ""
    else if |parts| == 1 then parts[0]
    else parts[0] + sep + Join(parts[1..], sep)
  }

  /** `s.split(sep)` for a one-character separator. */
  function Split(s: string, sep: char): (r: seq<string>)
    ensures |r| >= 1
    decreases |s|
  {
    var i := Find(s, [sep]);
    if i < 0 then [s] else [s[..i]] + Split(s[i + 1..], sep)
  }

  lemma FindSeparator(p: string, sep: char, t: string)
    requires sep !in p
    ensures Find(p + [sep] + t, [sep]) == |p|
    ensures Find(p, [sep]) == -1
  {
    var s := p + [sep] + t;
    assert OccursAt([sep], s, |p|) by {
      assert s[|p|..|p| + 1] == [s[|p|]];
    }
    forall i | 0 <= i < |p|
      ensures !OccursAt([sep], s, i) && !OccursAt([sep], p, i)
    {
      assert s[i..i + 1] == [s[i]];
      assert p[i..i + 1] == [p[i]];
    }
  }

  /** Splitting a joined list gives the list back when no part contains the
      separator. */
  lemma {:induction false} SplitJoin(parts: seq<string>, sep: char)
    requires |parts| >= 1
    requires forall k :: 0 <= k < |parts| ==> sep !in parts[k]
    ensures Split(Join(parts, [sep]), sep) == parts
  {
    if |parts| == 1 {
      FindSeparator(parts[0], sep, "");
    } else {
      var rest := Join(parts[1..], [sep]);
      FindSeparator(parts[0], sep, rest);
      var s := parts[0] + [sep] + rest;
      assert s[..|parts[0]|] == parts[0];
      assert s[|parts[0]| + 1..] == rest;
      SplitJoin(parts[1..], sep);
    }
  }

  /** `os.path.join(dir, name)` for a relative `name`. */
  function PathJoin(dir: string, name: string): (r: string)
    ensures IsSuffix(name, r)
  {
    if dir == [] || dir[|dir| - 1] == '/' then dir + name else dir + "/" + name
  }

  /** Left-justify `s` in a field of `width` characters (`f"{s:<width}"`). */
  function LJust(s: string, width: nat): (r: string)
    ensures |r| == if |s| >= width then |s| else width
    ensures IsPrefix(s, r)
    ensures forall i :: |s| <= i < |r| ==> r[i] == ' '
  {
    if |s| >= width then s else s + seq(width - |s|, _ => ' ')
  }

  // Hexadecimal rendering

  function HexDigit(d: nat): char
    requires d < 16
  {
    if d < 10 then ('0' as int + d) as char else ('a' as int + d - 10) as char
  }

  /** The value of one lower-case hexadecimal digit (0 for anything else). */
  function HexValue(c: char): nat {
    if '0' <= c <= '9' then c as int - '0' as int
    else if 'a' <= c <= 'f' then c as int - 'a' as int + 10
    else 0
  }

  /** The lower-case hexadecimal digits of `n`, without leading zeros. */
  function HexDigits(n: nat): (r: string)
    ensures |r| >= 1
  {
    if n < 16 then [HexDigit(n)] else HexDigits(n / 16) + [HexDigit(n % 16)]
  }

  /** `f"{n:0{width}x}"`: hexadecimal, zero-padded to at least `width`. */
  function Hex(n: nat, width: nat): string {
    var d := HexDigits(n);
    if |d| >= width then d else seq(width - |d|, _ => '0') + d
  }

  /** Reads a string of lower-case hexadecimal digits back as a number. */
  function ParseHex(s: string): nat {
    if s == [] then 0 else ParseHex(s[..|s| - 1]) * 16 + HexValue(s[|s| - 1])
  }

  function Pow16(k: nat): nat {
    if k == 0 then 1 else 16 * Pow16(k - 1)
  }

  lemma {:induction false} HexDigitsLength(n: nat, k: nat)
    requires 1 <= k && n < Pow16(k)
    ensures |HexDigits(n)| <= k
  {
    if n >= 16 {
      assert k >= 2;
      HexDigitsLength(n / 16, k - 1);
    }
  }

  lemma {:induction false} ParseHexDigits(n: nat)
    ensures ParseHex(HexDigits(n)) == n
  {
    if n >= 16 {
      var s := HexDigits(n / 16) + [HexDigit(n % 16)];
      assert s[..|s| - 1] == HexDigits(n / 16);
      ParseHexDigits(n / 16);
    }
  }

  lemma {:induction false} ParseHexLeadingZeros(z: nat, s: string)
    ensures ParseHex(seq(z, _ => '0') + s) == ParseHex(s)
    decreases |s|, z
  {
    var zs: string := seq(z, _ => '0');
    if s == [] {
      if z > 0 {
        assert (zs + s)[..z - 1] == seq(z - 1, _ => '0') + [];
        ParseHexLeadingZeros(z - 1, []);
      }
    } else {
      assert (zs + s)[..|zs + s| - 1] == zs + s[..|s| - 1];
      ParseHexLeadingZeros(z, s[..|s| - 1]);
    }
  }

  /** Zero-padded hexadecimal reads back as the number it renders. */
  lemma ParseHexRoundTrip(n: nat, width: nat)
    ensures ParseHex(Hex(n, width)) == n
  {
    var d := HexDigits(n);
    ParseHexDigits(n);
    if |d| < width {
      ParseHexLeadingZeros(width - |d|, d);
    }
  }

  /** Hexadecimal of a number below 16^width fills exactly `width` digits. */
  lemma HexWidth(n: nat, width: nat)
    requires 1 <= width && n < Pow16(width)
    ensures |Hex(n, width)| == width
  {
    HexDigitsLength(n, width);
  }

  // Decimal rendering

  function DecDigits(n: nat): (r: string)
    ensures |r| >= 1
    ensures forall i :: 0 <= i < |r| ==> '0' <= r[i] <= '9'
  {
    if n < 10 then [('0' as int + n) as char]
    else DecDigits(n / 10) + [('0' as int + n % 10) as char]
  }

  /** `str(n)` for an integer. */
  function IntToString(n: int): (r: string)
    ensures |r| >= 1
    ensures forall i :: 0 <= i < |r| ==> r[i] == '-' || '0' <= r[i] <= '9'
    ensures r[0] == '-' <==> n < 0
  {
    if n < 0 then "-" + DecDigits(-n) else DecDigits(n)
  }

  // Ordering

  /** Python's `a <= b` on strings: lexicographic by code point, a proper
      prefix first. */
  predicate StrLe(a: string, b: string) {
    a == [] || (b != [] && (a[0] < b[0] || (a[0] == b[0] && StrLe(a[1..], b[1..]))))
  }

  lemma {:induction false} StrLeTotal(a: string, b: string)
    ensures StrLe(a, b) || StrLe(b, a)
  {
    if a != [] && b != [] && a[0] == b[0] {
      StrLeTotal(a[1..], b[1..]);
    }
  }

  lemma {:induction false} StrLeTransitive(a: string, b: string, c: string)
    requires StrLe(a, b) && StrLe(b, c)
    ensures StrLe(a, c)
  {
    if a != [] && b != [] && c != [] && a[0] == b[0] == c[0] {
      StrLeTransitive(a[1..], b[1..], c[1..]);
    }
  }

  lemma {:induction false} StrLeAntisymmetric(a: string, b: string)
    requires StrLe(a, b) && StrLe(b, a)
    ensures a == b
  {
    if a != [] && b != [] {
      StrLeAntisymmetric(a[1..], b[1..]);
    }
  }
}

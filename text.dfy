/** The parts of Go's `strings`, `path/filepath`, `encoding/hex` and UTF-8
    conversion that the modelled code relies on, over Dafny strings. */
module Text {

  newtype byte = x: int | 0 <= x < 256

  // ---------------------------------------------------------------- prefixes

  predicate HasPrefix(s: string, prefix: string)
  {
    |prefix| <= |s| && s[..|prefix|] == prefix
  }

  predicate HasSuffix(s: string, suffix: string)
  {
    |suffix| <= |s| && s[|s| - |suffix|..] == suffix
  }

  /** `strings.Contains`: `sub` occurs somewhere in `s`. */
  predicate Contains(s: string, sub: string)
    decreases |s|
  {
    HasPrefix(s, sub) || (s != [] && Contains(s[1..], sub))
  }

  /** `strings.TrimSuffix`: `s` without `suffix` when it ends with it. */
  function TrimSuffix(s: string, suffix: string): (r: string)
    ensures HasSuffix(s, suffix) ==> r + suffix == s
    ensures !HasSuffix(s, suffix) ==> r == s
  {
    if HasSuffix(s, suffix) then s[..|s| - |suffix|] else s
  }

  // ------------------------------------------------------------ lower case

  /** Lower-cases the ASCII letters A-Z and leaves every other character alone. */
  function LowerChar(c: char): char
  {
    if 'A' <= c <= 'Z' then (c as int + 32) as char else c
  }

  /** `strings.ToLower`, restricted to ASCII letters. */
  function ToLower(s: string): (r: string)
    ensures |r| == |s|
    ensures forall i :: 0 <= i < |s| ==> r[i] == LowerChar(s[i])
  {
    seq(|s|, i requires 0 <= i < |s| => LowerChar(s[i]))
  }

  lemma ToLowerIdempotent(s: string)
    ensures ToLower(ToLower(s)) == ToLower(s)
  {
  }

  // ------------------------------------------------------------- extensions

  /** `filepath.Ext`: the suffix of `path` that starts at the last '.' of its
      final element, or "" when that element has no '.'. */
  function Ext(path: string): (e: string)
    ensures e == [] || (e[0] == '.' && HasSuffix(path, e))
    ensures forall i :: 0 < i < |e| ==> e[i] != '.' && e[i] != '/'
    decreases |path|
  {
    if path == [] then []
    else
      var c := path[|path| - 1];
      if c == '/' then []
      else if c == '.' then ['.']
      else
        var e := Ext(path[..|path| - 1]);
        if e == [] then [] else e + [c]
  }

  /** An extension is found exactly when the final path element holds a '.'. */
  lemma {:induction false} ExtEmpty(path: string)
    ensures Ext(path) == [] <==>
      forall i :: 0 <= i < |path| && path[i] == '.' ==> exists j :: i < j < |path| && path[j] == '/'
    decreases |path|
  {
    if path != [] {
      var n := |path| - 1;
      ExtEmpty(path[..n]);
      if path[n] != '/' && path[n] != '.' {
        if Ext(path[..n]) != [] {
          var i :| 0 <= i < n && path[..n][i] == '.' && !exists j :: i < j < n && path[..n][j] == '/';
          assert path[i] == '.';
          forall j | i < j < |path|
            ensures path[j] != '/'
          {
            if j < n {
              assert path[..n][j] == path[j];
            }
          }
        } else {
          forall i | 0 <= i < |path| && path[i] == '.'
            ensures exists j :: i < j < |path| && path[j] == '/'
          {
            assert i < n && path[..n][i] == '.';
            var j :| i < j < n && path[..n][j] == '/';
            assert path[j] == '/';
          }
        }
      }
    }
  }

  /** Lower-casing commutes with taking the extension. */
  lemma {:induction false} ExtToLower(path: string)
    ensures Ext(ToLower(path)) == ToLower(Ext(path))
    decreases |path|
  {
    if path != [] {
      var p, c := path[..|path| - 1], path[|path| - 1];
      assert path == p + [c];
      ExtToLower(p);
      ToLowerSnoc(p, c);
      ExtSnoc(ToLower(p), LowerChar(c));
      ExtSnoc(p, c);
      var e := Ext(p);
      if c != '/' && c != '.' && e != [] {
        ToLowerSnoc(e, c);
      }
    }
  }

  /** Lower-casing a string one character longer. */
  lemma ToLowerSnoc(s: string, c: char)
    ensures ToLower(s + [c]) == ToLower(s) + [LowerChar(c)]
  {
  }

  /** One step of `Ext`, for a path given as its last character and what
      precedes it. */
  lemma ExtSnoc(p: string, c: char)
    ensures Ext(p + [c]) == if c == '/' then [] else if c == '.' then ['.']
                            else if Ext(p) == [] then [] else Ext(p) + [c]
  {
    assert (p + [c])[..|p|] == p;
  }

  // ------------------------------------------------------------ white space

  /** `unicode.IsSpace`: the Latin-1 spaces and the Unicode White_Space set. */
  predicate IsSpace(c: char)
  {
    var n := c as int;
    (9 <= n <= 13) || n == 32 || n == 0x85 || n == 0xA0 || n == 0x1680 ||
    (0x2000 <= n <= 0x200A) || n == 0x2028 || n == 0x2029 || n == 0x202F ||
    n == 0x205F || n == 0x3000
  }

  /** The end of the run of white space that starts at `i`. */
  function SpaceRunEnd(s: string, i: nat): (n: nat)
    requires i <= |s|
    ensures i <= n <= |s|
    ensures forall k :: i <= k < n ==> IsSpace(s[k])
    ensures n == |s| || !IsSpace(s[n])
    decreases |s| - i
  {
    if i == |s| || !IsSpace(s[i]) then i else SpaceRunEnd(s, i + 1)
  }

  /** The start of the run of white space that ends just before `n`. */
  function SpaceRunStart(s: string, n: nat): (i: nat)
    requires n <= |s|
    ensures i <= n
    ensures forall k :: i <= k < n ==> IsSpace(s[k])
    ensures i == 0 || !IsSpace(s[i - 1])
  {
    if n == 0 || !IsSpace(s[n - 1]) then n else SpaceRunStart(s, n - 1)
  }

  /** `s` without its leading white space. */
  function TrimLeft(s: string): (r: string)
    ensures HasSuffix(s, r)
    ensures r == [] || !IsSpace(r[0])
    ensures forall i :: 0 <= i < |s| - |r| ==> IsSpace(s[i])
  {
    s[SpaceRunEnd(s, 0)..]
  }

  /** `s` without its trailing white space. */
  function TrimRight(s: string): (r: string)
    ensures HasPrefix(s, r)
    ensures r == [] || !IsSpace(r[|r| - 1])
    ensures forall i :: |r| <= i < |s| ==> IsSpace(s[i])
  {
    s[..SpaceRunStart(s, |s|)]
  }

  /** `strings.TrimSpace`: `s` without leading and trailing white space. */
  function TrimSpace(s: string): (r: string)
    ensures r == [] || (!IsSpace(r[0]) && !IsSpace(r[|r| - 1]))
  {
    TrimRight(TrimLeft(s))
  }

  /** What `TrimSpace` removes is white space, and what it keeps is a
      contiguous part of `s`. */
  lemma TrimSpaceSpan(s: string)
    ensures |s| - |TrimLeft(s)| + |TrimSpace(s)| <= |s|
    ensures s[|s| - |TrimLeft(s)|..|s| - |TrimLeft(s)| + |TrimSpace(s)|] == TrimSpace(s)
    ensures forall k :: 0 <= k < |s| - |TrimLeft(s)| ==> IsSpace(s[k])
    ensures forall k :: |s| - |TrimLeft(s)| + |TrimSpace(s)| <= k < |s| ==> IsSpace(s[k])
  {
    var a := SpaceRunEnd(s, 0);
    var l := s[a..];
    var b := SpaceRunStart(l, |l|);
    assert TrimSpace(s) == l[..b] == s[a..a + b];
    forall k | a + b <= k < |s|
      ensures IsSpace(s[k])
    {
      assert s[k] == l[k - a];
    }
  }

  /** Length of the run of non-space characters at the start of `s`. */
  function WordLength(s: string): (n: nat)
    ensures n <= |s|
    ensures forall i :: 0 <= i < n ==> !IsSpace(s[i])
    ensures n == |s| || IsSpace(s[n])
  {
    if s == [] || IsSpace(s[0]) then 0 else 1 + WordLength(s[1..])
  }

  /** `strings.Fields`: the maximal runs of non-space characters of `s`. */
  function Fields(s: string): (r: seq<string>)
    ensures forall i :: 0 <= i < |r| ==> r[i] != [] && forall k :: 0 <= k < |r[i]| ==> !IsSpace(r[i][k])
    ensures s != [] && !IsSpace(s[0]) ==> r != [] && r[0] == s[..WordLength(s)]
    decreases |s|
  {
    if s == [] then []
    else if IsSpace(s[0]) then Fields(s[1..])
    else
      var n := WordLength(s);
      [s[..n]] + Fields(s[n..])
  }

  // ------------------------------------------------------- split and join

  /** `strings.Join` with a one-character separator. */
  function Join(parts: seq<string>, sep: char): string
  {
    if parts == [] then []
    else if |parts| == 1 then parts[0]
    else Join(parts[..|parts| - 1], sep) + [sep] + parts[|parts| - 1]
  }

  /** `strings.LastIndex` for one character: the position of its last
      occurrence, or -1 when it does not occur. */
  function LastIndex(s: string, c: char): (k: int)
    ensures -1 <= k < |s|
    ensures k >= 0 ==> s[k] == c
    ensures forall j :: k < j < |s| ==> s[j] != c
  {
    LastIndexBefore(s, c, |s|)
  }

  /** The position of the last `c` among the first `n` characters, or -1. */
  function LastIndexBefore(s: string, c: char, n: nat): (k: int)
    requires n <= |s|
    ensures -1 <= k < n
    ensures k >= 0 ==> s[k] == c
    ensures forall j :: k < j < n ==> s[j] != c
  {
    if n == 0 then -1
    else if s[n - 1] == c then n - 1
    else LastIndexBefore(s, c, n - 1)
  }

  /** The pieces of `s[..n]` between occurrences of `sep`, left to right. */
  function SplitPrefix(s: string, sep: char, n: nat): (r: seq<string>)
    requires n <= |s|
    ensures |r| >= 1
  {
    if n == 0 then [[]]
    else
      var r := SplitPrefix(s, sep, n - 1);
      if s[n - 1] == sep then r + [[]]
      else r[..|r| - 1] + [r[|r| - 1] + [s[n - 1]]]
  }

  /** `strings.Split` with a one-character separator: the pieces between
      separators, never an empty list. */
  function Split(s: string, sep: char): seq<string>
  {
    SplitPrefix(s, sep, |s|)
  }

  /** The last piece is the text after the last separator (the whole text
      when there is none). */
  lemma {:induction false} SplitPrefixLast(s: string, sep: char, n: nat, k: int)
    requires n <= |s| && -1 <= k < n
    requires k >= 0 ==> s[k] == sep
    requires forall j :: k < j < n ==> s[j] != sep
    ensures var r := SplitPrefix(s, sep, n); r[|r| - 1] == s[k + 1..n]
  {
    if n > 0 {
      if k == n - 1 {
      } else {
        SplitPrefixLast(s, sep, n - 1, k);
        assert s[k + 1..n] == s[k + 1..n - 1] + [s[n - 1]];
      }
    }
  }

  /** Without a separator there is one piece, the whole text. */
  lemma {:induction false} SplitPrefixNone(s: string, sep: char, n: nat)
    requires n <= |s|
    requires forall j :: 0 <= j < n ==> s[j] != sep
    ensures SplitPrefix(s, sep, n) == [s[..n]]
  {
    if n > 0 {
      SplitPrefixNone(s, sep, n - 1);
      assert s[..n] == s[..n - 1] + [s[n - 1]];
    }
  }

  /** The first piece is the text before the first separator. */
  lemma {:induction false} SplitPrefixFirst(s: string, sep: char, n: nat, k: nat)
    requires k < n <= |s| && s[k] == sep
    requires forall j :: 0 <= j < k ==> s[j] != sep
    ensures |SplitPrefix(s, sep, n)| >= 2
    ensures SplitPrefix(s, sep, n)[0] == s[..k]
  {
    if k == n - 1 {
      SplitPrefixNone(s, sep, k);
    } else {
      SplitPrefixFirst(s, sep, n - 1, k);
    }
  }

  /** There is more than one piece exactly when the separator occurs. */
  lemma {:induction false} SplitPrefixCount(s: string, sep: char, n: nat)
    requires n <= |s|
    ensures |SplitPrefix(s, sep, n)| > 1 <==> exists j :: 0 <= j < n && s[j] == sep
  {
    if n > 0 {
      SplitPrefixCount(s, sep, n - 1);
    }
  }

  /** No piece contains the separator. */
  lemma {:induction false} SplitPrefixPieces(s: string, sep: char, n: nat)
    requires n <= |s|
    ensures forall i :: 0 <= i < |SplitPrefix(s, sep, n)| ==> sep !in SplitPrefix(s, sep, n)[i]
  {
    if n > 0 {
      SplitPrefixPieces(s, sep, n - 1);
      var r := SplitPrefix(s, sep, n - 1);
      var m := |r| - 1;
      if s[n - 1] != sep {
        var r' := r[..m] + [r[m] + [s[n - 1]]];
        forall i | 0 <= i < |r'|
          ensures sep !in r'[i]
        {
          if i < m {
            assert r'[i] == r[i];
          } else {
            assert sep !in r[m];
            assert r'[i] == r[m] + [s[n - 1]];
          }
        }
      }
    }
  }

  /** Joining the pieces of the first `n` characters with the separator
      gives those characters back. */
  lemma {:induction false} SplitPrefixJoin(s: string, sep: char, n: nat)
    requires n <= |s|
    ensures Join(SplitPrefix(s, sep, n), sep) == s[..n]
  {
    if n > 0 {
      SplitPrefixJoin(s, sep, n - 1);
      SplitPrefixJoinStep(s, sep, n);
    }
  }

  /** One more character of text: a separator starts a new piece, any other
      character goes on the last one. */
  lemma SplitPrefixJoinStep(s: string, sep: char, n: nat)
    requires 0 < n <= |s|
    requires Join(SplitPrefix(s, sep, n - 1), sep) == s[..n - 1]
    ensures Join(SplitPrefix(s, sep, n), sep) == s[..n]
  {
    var r := SplitPrefix(s, sep, n - 1);
    var c := s[n - 1];
    assert s[..n] == s[..n - 1] + [c];
    if c == sep {
      JoinSnoc(r, [], sep);
    } else {
      JoinExtendLast(r, c, sep);
    }
  }

  /** Joining one more piece adds the separator and the piece. */
  lemma JoinSnoc(parts: seq<string>, x: string, sep: char)
    requires parts != []
    ensures Join(parts + [x], sep) == Join(parts, sep) + [sep] + x
  {
    assert (parts + [x])[..|parts|] == parts;
  }

  /** Joining after one more character on the last piece adds that character. */
  lemma JoinExtendLast(parts: seq<string>, c: char, sep: char)
    requires parts != []
    ensures Join(parts[..|parts| - 1] + [parts[|parts| - 1] + [c]], sep) == Join(parts, sep) + [c]
  {
    var m := |parts| - 1;
    if m > 0 {
      var front := parts[..m];
      JoinSnoc(front, parts[m] + [c], sep);
      assert parts == front + [parts[m]];
      JoinSnoc(front, parts[m], sep);
    }
  }

  /** Joining the pieces with the separator gives the text back. */
  lemma SplitJoin(s: string, sep: char)
    ensures Join(Split(s, sep), sep) == s
  {
    SplitPrefixJoin(s, sep, |s|);
    assert s[..|s|] == s;
  }

  /** The last piece is the text after the last separator: after the
      separator at `k`, which no other follows (the whole text when `k` is -1). */
  lemma SplitLast(s: string, sep: char, k: int)
    requires -1 <= k < |s| && (k >= 0 ==> s[k] == sep)
    requires forall j :: k < j < |s| ==> s[j] != sep
    ensures var r := Split(s, sep); r[|r| - 1] == s[k + 1..|s|]
  {
    SplitPrefixLast(s, sep, |s|, k);
  }

  // ----------------------------------------------------- bytes and hex

  /** The UTF-8 encoding of one Unicode scalar value, as `[]byte(string)` does. */
  function Utf8(c: char): (b: seq<byte>)
    ensures 1 <= |b| <= 4
    ensures c as int < 0x80 ==> b == [c as int as byte]
  {
    var n := c as int;
    if n < 0x80 then [n as byte]
    else if n < 0x800 then [(0xC0 + n / 64) as byte, (0x80 + n % 64) as byte]
    else if n < 0x10000 then
      [(0xE0 + n / 4096) as byte, (0x80 + n / 64 % 64) as byte, (0x80 + n % 64) as byte]
    else
      [(0xF0 + n / 262144) as byte, (0x80 + n / 4096 % 64) as byte,
       (0x80 + n / 64 % 64) as byte, (0x80 + n % 64) as byte]
  }

  /** `[]byte(s)`: the UTF-8 bytes of `s`. */
  function Utf8Bytes(s: string): seq<byte>
  {
    if s == [] then [] else Utf8Bytes(s[..|s| - 1]) + Utf8(s[|s| - 1])
  }

  const HexDigits: string := "0123456789abcdef"

  /** `hex.EncodeToString`: two lower-case hex digits per byte, high nibble first. */
  function Hex(b: seq<byte>): (h: string)
    ensures |h| == 2 * |b|
    ensures forall i :: 0 <= i < |h| ==> h[i] in HexDigits
  {
    if b == [] then []
    else
      var x := b[|b| - 1] as int;
      Hex(b[..|b| - 1]) + [HexDigits[x / 16], HexDigits[x % 16]]
  }

  /** The inverse of `Hex` on one digit. */
  function HexValue(c: char): int
  {
    if '0' <= c <= '9' then c as int - '0' as int
    else if 'a' <= c <= 'f' then c as int - 'a' as int + 10
    else 0
  }

  /** The byte whose high and low hex digits have values `hi` and `lo`. */
  function Nibbles(hi: int, lo: int): byte
  {
    if 0 <= hi < 16 && 0 <= lo < 16 then (16 * hi + lo) as byte else 0
  }

  /** Decodes a string of hex digit pairs. */
  function Unhex(h: string): seq<byte>
    requires |h| % 2 == 0
  {
    if h == [] then []
    else
      var hi := HexValue(h[|h| - 2]);
      var lo := HexValue(h[|h| - 1]);
      Unhex(h[..|h| - 2]) + [Nibbles(hi, lo)]
  }

  lemma HexDigitValue(d: int)
    requires 0 <= d < 16
    ensures HexValue(HexDigits[d]) == d
  {
    if d < 10 {
      assert HexDigits[d] == ('0' as int + d) as char;
    } else {
      assert HexDigits[d] == ('a' as int + d - 10) as char;
    }
  }

  /** Hex encoding loses nothing: decoding gives the bytes back. */
  lemma {:induction false} HexRoundTrip(b: seq<byte>)
    ensures Unhex(Hex(b)) == b
  {
    if b != [] {
      var n := |b| - 1;
      var x := b[n] as int;
      var h := Hex(b);
      assert h[..|h| - 2] == Hex(b[..n]);
      HexRoundTrip(b[..n]);
      HexDigitValue(x / 16);
      HexDigitValue(x % 16);
      assert h == Hex(b[..n]) + [HexDigits[x / 16], HexDigits[x % 16]];
      assert Nibbles(x / 16, x % 16) == b[n];
      assert b == b[..n] + [b[n]];
    }
  }
}

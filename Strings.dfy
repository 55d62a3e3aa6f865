/**
 * The few operations of JavaScript's String.prototype that the core relies on:
 * trim (schema setters), toLowerCase and includes (the password rule),
 * replace with a string pattern (bearer extraction), split (sortBy parsing)
 * and a suffix test (the avatar file-name pattern); and the UTF-8 encoding
 * of Buffer.from(string), which the avatar path's cast applies.
 */
module Strings {
  import opened Wrappers

  /** White space and line terminators removed by String.prototype.trim. */
  predicate IsSpace(c: char) {
    var n := c as int;
    n == 0x09 || n == 0x0A || n == 0x0B || n == 0x0C || n == 0x0D || n == 0x20 ||
    n == 0xA0 || n == 0x1680 || (0x2000 <= n <= 0x200A) || n == 0x2028 ||
    n == 0x2029 || n == 0x202F || n == 0x205F || n == 0x3000 || n == 0xFEFF
  }

  /** Drops leading white space: the result is the suffix that starts at the first non-space. */
  function TrimStart(s: string): (r: string)
    ensures |r| <= |s| && r == s[|s| - |r|..]
    ensures r == [] || !IsSpace(r[0])
    ensures forall i :: 0 <= i < |s| - |r| ==> IsSpace(s[i])
  {
    if s != [] && IsSpace(s[0]) then TrimStart(s[1..]) else s
  }

  /** Drops trailing white space: the result is the prefix that ends at the last non-space. */
  function TrimEnd(s: string): (r: string)
    ensures |r| <= |s| && r == s[..|r|]
    ensures r == [] || !IsSpace(r[|r| - 1])
    ensures forall i :: |r| <= i < |s| ==> IsSpace(s[i])
  {
    if s != [] && IsSpace(s[|s| - 1]) then TrimEnd(s[..|s| - 1]) else s
  }

  /** String.prototype.trim. */
  function Trim(s: string): (r: string)
    ensures |r| <= |s|
    ensures r == [] || (!IsSpace(r[0]) && !IsSpace(r[|r| - 1]))
  {
    TrimEnd(TrimStart(s))
  }

  /**
   * What trim keeps: the trimmed string is the stretch of s that starts at
   * some position i, with only white space before i and after the stretch.
   */
  lemma TrimCuts(s: string)
    ensures var r := Trim(s); var i := |s| - |TrimStart(s)|;
      i + |r| <= |s| && r == s[i..i + |r|] &&
      (forall k :: 0 <= k < i ==> IsSpace(s[k])) &&
      (forall k :: i + |r| <= k < |s| ==> IsSpace(s[k]))
  {
    var t := TrimStart(s);
    var i := |s| - |t|;
    var r := TrimEnd(t);
    assert t == s[i..];
    assert r == t[..|r|];
    assert s[i..i + |r|] == s[i..][..|r|];
    forall k | i + |r| <= k < |s| ensures IsSpace(s[k]) {
      assert s[k] == t[k - i];
    }
  }

  /** Trimming is idempotent, so a value that went through a trimming setter is left alone by a second one. */
  lemma TrimIdempotent(s: string)
    ensures Trim(Trim(s)) == Trim(s)
  {
    var t := TrimStart(s);
    var r := TrimEnd(t);
    if r != [] {
      assert r[0] == t[0];
    }
    assert TrimStart(r) == r;
    assert TrimEnd(r) == r;
  }

  /** An octet of a Node.js Buffer. */
  newtype Byte = b: int | 0 <= b < 256

  /** The byte that follows the lead byte of a multi-byte UTF-8 sequence: 10xxxxxx with the given six bits. */
  function Continuation(bits: int): Byte
    requires 0 <= bits < 64
  {
    (0x80 + bits) as Byte
  }

  /**
   * The UTF-8 encoding of one character (a Unicode scalar value), as
   * Buffer.from(string) writes it: one byte below 0x80, then two, three or
   * four bytes, a lead byte that announces the length followed by
   * continuation bytes holding six bits each, most significant first.
   */
  function Utf8Char(c: char): (r: seq<Byte>)
    ensures 1 <= |r| <= 4
    ensures |r| == 1 <==> (c as int) < 0x80
    ensures forall i :: 1 <= i < |r| ==> 0x80 <= r[i] < 0xC0
  {
    var n := c as int;
    var q1 := n / 64;
    var q2 := q1 / 64;
    if n < 0x80 then [n as Byte]
    else if n < 0x800 then [(0xC0 + q1) as Byte, Continuation(n % 64)]
    else if n < 0x10000 then [(0xE0 + q2) as Byte, Continuation(q1 % 64), Continuation(n % 64)]
    else [(0xF0 + q2 / 64) as Byte, Continuation(q2 % 64), Continuation(q1 % 64), Continuation(n % 64)]
  }

  /** The code point a one- to four-byte UTF-8 sequence spells: the lead byte's payload, then six bits per continuation byte. */
  function DecodeUtf8Char(r: seq<Byte>): int
    requires 1 <= |r| <= 4
  {
    var lead := r[0] as int;
    if |r| == 1 then lead
    else if |r| == 2 then (lead - 0xC0) * 64 + (r[1] as int - 0x80)
    else if |r| == 3 then ((lead - 0xE0) * 64 + (r[1] as int - 0x80)) * 64 + (r[2] as int - 0x80)
    else (((lead - 0xF0) * 64 + (r[1] as int - 0x80)) * 64 + (r[2] as int - 0x80)) * 64 + (r[3] as int - 0x80)
  }

  /** Decoding the bytes of a character gives back its code point, so the encoding loses nothing. */
  lemma Utf8CharRoundTrip(c: char)
    ensures DecodeUtf8Char(Utf8Char(c)) == c as int
  {
    var n := c as int;
    var q1 := n / 64;
    var q2 := q1 / 64;
    assert n == q1 * 64 + n % 64;
    assert q1 == q2 * 64 + q1 % 64;
    assert q2 == q2 / 64 * 64 + q2 % 64;
  }

  /** Buffer.from(string): the UTF-8 bytes of each character in turn. */
  function Utf8(s: string): (r: seq<Byte>)
    ensures |s| <= |r| <= 4 * |s|
    ensures s == [] <==> r == []
  {
    if s == [] then [] else Utf8Char(s[0]) + Utf8(s[1..])
  }

  /** A string of ASCII characters encodes to their codes, one byte each. */
  lemma {:induction false} Utf8Ascii(s: string)
    requires forall i :: 0 <= i < |s| ==> (s[i] as int) < 0x80
    ensures |Utf8(s)| == |s|
    ensures forall i :: 0 <= i < |s| ==> Utf8(s)[i] as int == s[i] as int
  {
    if s != [] {
      Utf8Ascii(s[1..]);
    }
  }

  /** ASCII upper-case letters are mapped to lower case; every other character is kept. */
  function LowerChar(c: char): char {
    if 'A' <= c <= 'Z' then (c as int + 32) as char else c
  }

  /** String.prototype.toLowerCase on the ASCII letters. */
  function ToLower(s: string): (r: string)
    ensures |r| == |s|
    ensures forall i :: 0 <= i < |s| ==> r[i] == LowerChar(s[i])
  {
    if s == [] then [] else [LowerChar(s[0])] + ToLower(s[1..])
  }

  /** Lowering letter case works piecewise. */
  lemma {:induction false} ToLowerConcat(a: string, b: string)
    ensures ToLower(a + b) == ToLower(a) + ToLower(b)
    decreases |a|
  {
    if a == [] {
      assert a + b == b;
    } else {
      assert (a + b)[1..] == a[1..] + b;
      ToLowerConcat(a[1..], b);
    }
  }

  /** Lowering letter case commutes with taking a prefix. */
  lemma ToLowerTake(s: string, j: nat)
    requires j <= |s|
    ensures ToLower(s)[..j] == ToLower(s[..j])
  {
    assert s == s[..j] + s[j..];
    ToLowerConcat(s[..j], s[j..]);
  }

  /** Lowering letter case commutes with dropping a prefix. */
  lemma ToLowerDrop(s: string, i: nat)
    requires i <= |s|
    ensures ToLower(s)[i..] == ToLower(s[i..])
  {
    assert s == s[..i] + s[i..];
    ToLowerConcat(s[..i], s[i..]);
  }

  /** Lowering letter case commutes with taking a slice. */
  lemma ToLowerSlice(s: string, i: nat, j: nat)
    requires i <= j <= |s|
    ensures ToLower(s)[i..j] == ToLower(s[i..j])
  {
    var front := s[..j];
    ToLowerTake(s, j);
    ToLowerDrop(front, i);
    assert front[i..] == s[i..j];
    assert ToLower(s)[i..j] == ToLower(s)[..j][i..];
  }

  /** pat occurs in s at position i. */
  predicate OccursAt(s: string, pat: string, i: int) {
    0 <= i && i + |pat| <= |s| && s[i..i + |pat|] == pat
  }

  /** The first position at or after k where pat occurs in s. */
  function IndexOfFrom(s: string, pat: string, k: nat): (r: Option<nat>)
    decreases |s| - k
    ensures r.Some? ==> k <= r.value && OccursAt(s, pat, r.value)
    ensures r.Some? ==> forall j :: k <= j < r.value ==> !OccursAt(s, pat, j)
    ensures r.None? ==> forall j :: k <= j ==> !OccursAt(s, pat, j)
  {
    if k + |pat| > |s| then None
    else if s[k..k + |pat|] == pat then Some(k)
    else IndexOfFrom(s, pat, k + 1)
  }

  /** String.prototype.indexOf: the first position where pat occurs, if any. */
  function IndexOf(s: string, pat: string): (r: Option<nat>)
    ensures r.Some? ==> OccursAt(s, pat, r.value)
    ensures r.Some? ==> forall j :: 0 <= j < r.value ==> !OccursAt(s, pat, j)
    ensures r.None? <==> forall j :: !OccursAt(s, pat, j)
  {
    var r := IndexOfFrom(s, pat, 0);
    assert r.Some? ==> OccursAt(s, pat, r.value);
    r
  }

  /** String.prototype.includes. */
  function Includes(s: string, pat: string): (b: bool)
    ensures b <==> exists i :: OccursAt(s, pat, i)
  {
    IndexOf(s, pat).Some?
  }

  /**
   * String.prototype.replace with a string pattern: only the first
   * occurrence of pat is replaced, and s is returned as it is when pat does
   * not occur.
   */
  function ReplaceFirst(s: string, pat: string, rep: string): (r: string)
    ensures (forall j :: !OccursAt(s, pat, j)) ==> r == s
    ensures forall i :: OccursAt(s, pat, i) && (forall j :: 0 <= j < i ==> !OccursAt(s, pat, j)) ==>
      r == s[..i] + rep + s[i + |pat|..]
  {
    match IndexOf(s, pat)
    case None => s
    case Some(i) =>
      s[..i] + rep + s[i + |pat|..]
  }

  /** A string that starts with the pattern has that first occurrence replaced. */
  lemma ReplacePrefix(pat: string, t: string, rep: string)
    ensures ReplaceFirst(pat + t, pat, rep) == rep + t
  {
    var s := pat + t;
    assert s[0..0 + |pat|] == pat;
    assert IndexOf(s, pat) == Some(0);
    assert s[..0] + rep + s[|pat|..] == rep + t;
  }

  /** s ends with suffix (a pattern anchored with `$`). */
  predicate EndsWith(s: string, suffix: string) {
    |suffix| <= |s| && s[|s| - |suffix|..] == suffix
  }

  /** String.prototype.split with a one-character separator: always at least one part, none holding sep. */
  function Split(s: string, sep: char): (parts: seq<string>)
    ensures |parts| >= 1
    ensures forall i :: 0 <= i < |parts| ==> sep !in parts[i]
  {
    if s == [] then [[]]
    else
      var rest := Split(s[1..], sep);
      if s[0] == sep then [[]] + rest
      else [[s[0]] + rest[0]] + rest[1..]
  }

  /** Array.prototype.join with a one-character separator. */
  function Join(parts: seq<string>, sep: char): string
    requires |parts| >= 1
  {
    if |parts| == 1 then parts[0] else parts[0] + [sep] + Join(parts[1..], sep)
  }

  /**
   * The first part of a split is the longest prefix of s without sep; when
   * there are more parts, sep follows that prefix and the remaining parts are
   * the split of what comes after it.
   */
  lemma {:induction false} SplitFirst(s: string, sep: char)
    ensures var p := Split(s, sep);
      |p[0]| <= |s| && s[..|p[0]|] == p[0] &&
      (|p| == 1 <==> |p[0]| == |s|) &&
      (|p| > 1 ==> s[|p[0]|] == sep && Split(s[|p[0]| + 1..], sep) == p[1..])
  {
    if s != [] && s[0] != sep {
      var rest := Split(s[1..], sep);
      SplitFirst(s[1..], sep);
      var p := Split(s, sep);
      assert p[0] == [s[0]] + rest[0];
      assert p[1..] == rest[1..];
      if |p| > 1 {
        assert s[|p[0]| + 1..] == s[1..][|rest[0]| + 1..];
      }
    }
  }

  /**
   * The second part of a split is the separator-free text after the first
   * separator, up to the next separator or the end.
   */
  lemma SplitSecond(s: string, sep: char)
    requires |Split(s, sep)| > 1
    ensures var p := Split(s, sep);
      |p[0]| < |s| && var rest := s[|p[0]| + 1..];
      |p[1]| <= |rest| && rest[..|p[1]|] == p[1] &&
      (|p[1]| == |rest| || rest[|p[1]|] == sep)
  {
    var p := Split(s, sep);
    SplitFirst(s, sep);
    var rest := s[|p[0]| + 1..];
    SplitFirst(rest, sep);
    assert Split(rest, sep)[0] == p[1];
  }

  /** Joining the parts of a split gives back the string that was split. */
  lemma {:induction false} JoinSplit(s: string, sep: char)
    ensures Join(Split(s, sep), sep) == s
    decreases |s|
  {
    var p := Split(s, sep);
    SplitFirst(s, sep);
    if |p| > 1 {
      var k := |p[0]|;
      JoinSplit(s[k + 1..], sep);
      assert s == s[..k] + [sep] + s[k + 1..];
    }
  }

  /** A prefix free of sep, followed by sep, splits off as one part. */
  lemma {:induction false} SplitCons(a: string, b: string, sep: char)
    requires sep !in a
    ensures Split(a + [sep] + b, sep) == [a] + Split(b, sep)
    decreases |a|
  {
    var s := a + [sep] + b;
    if a == [] {
      assert s[1..] == b;
    } else {
      assert s[1..] == a[1..] + [sep] + b;
      SplitCons(a[1..], b, sep);
      assert [a[0]] + a[1..] == a;
    }
  }

  /** A string free of sep splits into itself alone. */
  lemma {:induction false} SplitNone(a: string, sep: char)
    requires sep !in a
    ensures Split(a, sep) == [a]
    decreases |a|
  {
    if a != [] {
      SplitNone(a[1..], sep);
      assert [a[0]] + a[1..] == a;
    }
  }

  /** Splitting the join of sep-free parts gives back the parts. */
  lemma {:induction false} SplitJoin(parts: seq<string>, sep: char)
    requires |parts| >= 1
    requires forall i :: 0 <= i < |parts| ==> sep !in parts[i]
    ensures Split(Join(parts, sep), sep) == parts
    decreases |parts|
  {
    if |parts| == 1 {
      SplitNone(parts[0], sep);
    } else {
      SplitJoin(parts[1..], sep);
      SplitCons(parts[0], Join(parts[1..], sep), sep);
      assert [parts[0]] + parts[1..] == parts;
    }
  }
}

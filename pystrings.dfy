/** The parts of Python's `str` that the mail exporter relies on: whitespace
    splitting, joining, splitting on a separator, substring search, ASCII
    case folding, the regular-expression class `\w` (ASCII part) and `str(int)`. */
module PyStrings {

  /** `str.isspace()` for one character: the characters that `str.split()`,
      `str.strip()` and the regular-expression class `\s` treat as whitespace. */
  predicate IsSpace(c: char) {
    ('\t' <= c <= '\r') || ('\U{1C}' <= c <= '\U{1F}') || c == ' '
    || c == '\U{85}' || c == '\U{A0}' || c == '\U{1680}'
    || ('\U{2000}' <= c <= '\U{200A}') || c == '\U{2028}' || c == '\U{2029}'
    || c == '\U{202F}' || c == '\U{205F}' || c == '\U{3000}'
  }

  /** `s.strip() == ""`: the string holds whitespace only. */
  predicate IsBlank(s: string) {
    forall i :: 0 <= i < |s| ==> IsSpace(s[i])
  }

  /** No whitespace at all in `s`. */
  predicate NoSpace(s: string) {
    forall i :: 0 <= i < |s| ==> !IsSpace(s[i])
  }

  /** `xs[:n]` for a non-negative `n`. */
  function Prefix<T>(xs: seq<T>, n: nat): (r: seq<T>)
    ensures |r| == if n < |xs| then n else |xs|
    ensures r <= xs
  {
    if n < |xs| then xs[..n] else xs
  }

  /** The concatenation of all parts. */
  function Concat(parts: seq<string>): string {
    if parts == [] then "" else parts[0] + Concat(parts[1..])
  }

  /** `sep.join(parts)`: the parts, first one first, with one separator
      between each two of them. */
  function JoinWith(sep: string, parts: seq<string>): (r: string)
    ensures parts != [] ==> parts[0] <= r
    ensures |r| == |Concat(parts)| + (if parts == [] then 0 else (|parts| - 1) * |sep|)
  {
    if parts == [] then ""
    else if |parts| == 1 then parts[0]
    else parts[0] + sep + JoinWith(sep, parts[1..])
  }

  /** The characters of `s` that are not whitespace, in order. */
  function NonSpace(s: string): string {
    if s == [] then ""
    else if IsSpace(s[0]) then NonSpace(s[1..])
    else [s[0]] + NonSpace(s[1..])
  }

  /** Length of the run of non-whitespace characters that starts `s`. */
  function WordLength(s: string): (n: nat)
    ensures n <= |s|
    ensures forall i :: 0 <= i < n ==> !IsSpace(s[i])
    ensures n < |s| ==> IsSpace(s[n])
  {
    if s == [] || IsSpace(s[0]) then 0 else 1 + WordLength(s[1..])
  }

  /** `s.split()`: the maximal runs of non-whitespace characters, in order. */
  function SplitWs(s: string): (words: seq<string>)
    ensures forall k :: 0 <= k < |words| ==> words[k] != [] && NoSpace(words[k])
    decreases |s|
  {
    if s == [] then []
    else if IsSpace(s[0]) then SplitWs(s[1..])
    else
      var n := WordLength(s);
      [s[..n]] + SplitWs(s[n..])
  }

  /** Whitespace before the first word does not change `s.split()`. */
  lemma {:induction false} SplitWsSkipsSpaces(s: string, j: nat)
    requires j <= |s| && forall i :: 0 <= i < j ==> IsSpace(s[i])
    ensures SplitWs(s) == SplitWs(s[j..])
  {
    if j > 0 {
      assert IsSpace(s[0]);
      assert s[1..][j - 1..] == s[j..];
      SplitWsSkipsSpaces(s[1..], j - 1);
    }
  }

  /** `s.split()` skips the leading whitespace, however long and of whatever
      kind: when `s` is `j` whitespace characters, then a run of `w > 0`
      others that ends at whitespace or at the end, that run is the first
      word and the other words are those of the text after it. */
  lemma SplitWsHead(s: string, j: nat, w: nat)
    requires 0 < w && j + w <= |s|
    requires forall i :: 0 <= i < j ==> IsSpace(s[i])
    requires forall i :: j <= i < j + w ==> !IsSpace(s[i])
    requires j + w < |s| ==> IsSpace(s[j + w])
    ensures SplitWs(s) == [s[j..j + w]] + SplitWs(s[j + w..])
  {
    SplitWsSkipsSpaces(s, j);
    var t := s[j..];
    var n := WordLength(t);
    assert !IsSpace(t[0]);
    if n != w {
      assert false;
    }
    assert SplitWs(t) == [t[..w]] + SplitWs(t[w..]);
    assert t[..w] == s[j..j + w];
    assert t[w..] == s[j + w..];
  }

  /** `s.split(c)` for a one-character separator: never empty, and no part
      holds the separator. */
  function SplitOn(s: string, c: char): (parts: seq<string>)
    ensures |parts| >= 1
    ensures forall k :: 0 <= k < |parts| ==> c !in parts[k]
  {
    if s == [] then [""]
    else
      var rest := SplitOn(s[1..], c);
      if s[0] == c then [""] + rest else [[s[0]] + rest[0]] + rest[1..]
  }

  /** `next(iter(s.split(sep)))`: the text before the first occurrence of
      `sep`, or all of `s` when `sep` does not occur. */
  function PrefixBefore(s: string, sep: string): (r: string)
    requires sep != []
    ensures r <= s
    ensures forall i :: 0 <= i < |r| ==> !(sep <= s[i..])
    ensures |r| == |s| || sep <= s[|r|..]
    decreases |s|
  {
    if s == [] || sep <= s then []
    else
      var r := [s[0]] + PrefixBefore(s[1..], sep);
      assert forall i :: 1 <= i <= |s| ==> s[i..] == s[1..][i - 1..];
      r
  }

  /** `w in s` for strings: `w` occurs somewhere in `s`. */
  predicate Contains(s: string, w: string) {
    exists i :: 0 <= i <= |s| && w <= s[i..]
  }

  /** ASCII lower-casing of one character (what SQLite's LIKE folds). */
  function LowerChar(c: char): char {
    if 'A' <= c <= 'Z' then (c as int + 32) as char else c
  }

  function Lower(s: string): (r: string)
    ensures |r| == |s|
    ensures forall i :: 0 <= i < |s| ==> r[i] == LowerChar(s[i])
  {
    seq(|s|, i requires 0 <= i < |s| => LowerChar(s[i]))
  }

  /** ASCII upper-casing (`str.upper()` on the ASCII names it is used on). */
  function UpperChar(c: char): char {
    if 'a' <= c <= 'z' then (c as int - 32) as char else c
  }

  function Upper(s: string): (r: string)
    ensures |r| == |s|
    ensures forall i :: 0 <= i < |s| ==> r[i] == UpperChar(s[i])
  {
    seq(|s|, i requires 0 <= i < |s| => UpperChar(s[i]))
  }

  /** The ASCII members of the regular-expression class `\w`. */
  predicate IsWordChar(c: char) {
    ('a' <= c <= 'z') || ('A' <= c <= 'Z') || ('0' <= c <= '9') || c == '_'
  }

  /** `re.sub(r"[^\w]", "", s)`: the word characters of `s`, in order. */
  function KeepWordChars(s: string): (r: string)
    ensures |r| <= |s|
    ensures forall c :: c in r <==> c in s && IsWordChar(c)
  {
    if s == [] then ""
    else if IsWordChar(s[0]) then [s[0]] + KeepWordChars(s[1..])
    else KeepWordChars(s[1..])
  }

  predicate IsDigit(c: char) {
    '0' <= c <= '9'
  }

  function DigitChar(d: nat): (c: char)
    requires d < 10
    ensures IsDigit(c)
  {
    ('0' as int + d) as char
  }

  function DigitValue(c: char): (d: nat)
    requires IsDigit(c)
    ensures d < 10 && DigitChar(d) == c
  {
    c as int - '0' as int
  }

  /** The number a string of ASCII digits denotes (`int(s)`). */
  function DecimalValue(s: string): nat
    requires forall i :: 0 <= i < |s| ==> IsDigit(s[i])
  {
    if s == [] then 0 else 10 * DecimalValue(s[..|s| - 1]) + DigitValue(s[|s| - 1])
  }

  /** `str(n)` for a non-negative integer: its decimal digits, no padding. */
  function NatToStr(n: nat): (r: string)
    ensures r != []
    ensures forall i :: 0 <= i < |r| ==> IsDigit(r[i])
    ensures DecimalValue(r) == n
    ensures r[0] == '0' ==> n == 0
  {
    if n < 10 then [DigitChar(n)]
    else
      var r := NatToStr(n / 10) + [DigitChar(n % 10)];
      assert r[..|r| - 1] == NatToStr(n / 10);
      r
  }

  /** Two-digit zero-padded decimal (strftime's `%m`, `%d`, `%H`, ...). */
  function Pad2(n: nat): (r: string)
    requires n < 100
    ensures |r| == 2 && IsDigit(r[0]) && IsDigit(r[1])
    ensures DecimalValue(r) == n
  {
    var r := [DigitChar(n / 10), DigitChar(n % 10)];
    assert r[..1] == [DigitChar(n / 10)];
    assert r[..1][..0] == [];
    assert DecimalValue(r[..1]) == n / 10;
    r
  }

  /** Four-digit zero-padded decimal (strftime's `%Y`). */
  function Pad4(n: nat): (r: string)
    requires n < 10000
    ensures |r| == 4 && forall i :: 0 <= i < 4 ==> IsDigit(r[i])
    ensures DecimalValue(r) == n
  {
    var hi, lo := Pad2(n / 100), Pad2(n % 100);
    var r := hi + lo;
    assert r[..3][..2] == hi;
    assert r[..3] == hi + [lo[0]];
    assert DigitValue(lo[0]) == (n % 100) / 10 && DigitValue(lo[1]) == (n % 100) % 10;
    assert DecimalValue(r[..3]) == 10 * (n / 100) + (n % 100) / 10;
    assert DecimalValue(r) == 10 * DecimalValue(r[..3]) + (n % 100) % 10;
    r
  }

  // ---------------------------------------------------------------------
  // Lemmas about the functions above.

  /** The empty string occurs in every string. */
  lemma ContainsEmpty(s: string)
    ensures Contains(s, "")
  {
    assert "" <= s[0..];
  }

  /** Without an occurrence of `sep`, splitting on it gives the whole string back. */
  lemma PrefixBeforeAbsent(s: string, sep: string)
    requires sep != []
    requires !Contains(s, sep)
    ensures PrefixBefore(s, sep) == s
  {
  }

  /** Splitting `p + sep + t` where `p` has no occurrence of `sep` that starts
      inside it gives `p`. */
  lemma PrefixBeforeJoined(p: string, sep: string, t: string)
    requires sep != []
    requires forall i :: 0 <= i < |p| ==> !(sep <= (p + sep + t)[i..])
    ensures PrefixBefore(p + sep + t, sep) == p
  {
    var s := p + sep + t;
    var r := PrefixBefore(s, sep);
    assert s[|p|..] == sep + t;
    if |r| != |p| {
      assert false;
    }
    assert r == s[..|r|] == p;
  }

  /** `Concat` of a non-empty list is its head followed by the rest. */
  lemma {:induction false} ConcatCons(w: string, ws: seq<string>)
    ensures Concat([w] + ws) == w + Concat(ws)
  {
    assert ([w] + ws)[1..] == ws;
  }

  /** A whitespace-only string has no non-whitespace characters. */
  lemma {:induction false} NonSpaceOfBlank(s: string)
    requires IsBlank(s)
    ensures NonSpace(s) == ""
  {
    if s != [] {
      NonSpaceOfBlank(s[1..]);
    }
  }

  /** `NonSpace` distributes over concatenation. */
  lemma {:induction false} NonSpaceAppend(a: string, b: string)
    ensures NonSpace(a + b) == NonSpace(a) + NonSpace(b)
  {
    if a == [] {
      assert a + b == b;
    } else {
      assert (a + b)[1..] == a[1..] + b;
      NonSpaceAppend(a[1..], b);
    }
  }

  /** A word without whitespace is its own non-whitespace part. */
  lemma {:induction false} NonSpaceOfWord(w: string)
    requires NoSpace(w)
    ensures NonSpace(w) == w
  {
    if w != [] {
      NonSpaceOfWord(w[1..]);
    }
  }

  /** `s.split()` loses exactly the whitespace: its words, concatenated, are
      the non-whitespace characters of `s` in order. */
  lemma {:induction false} SplitWsKeepsText(s: string)
    ensures Concat(SplitWs(s)) == NonSpace(s)
    decreases |s|
  {
    if s == [] {
    } else if IsSpace(s[0]) {
      SplitWsKeepsText(s[1..]);
    } else {
      var n := WordLength(s);
      SplitWsKeepsText(s[n..]);
      ConcatCons(s[..n], SplitWs(s[n..]));
      assert s == s[..n] + s[n..];
      NonSpaceAppend(s[..n], s[n..]);
      NonSpaceOfWord(s[..n]);
    }
  }

  /** `s.split()` is empty exactly when `s` is blank. */
  lemma {:induction false} SplitWsEmptyIffBlank(s: string)
    ensures SplitWs(s) == [] <==> IsBlank(s)
    decreases |s|
  {
    if s != [] {
      if IsSpace(s[0]) {
        SplitWsEmptyIffBlank(s[1..]);
        if IsBlank(s[1..]) {
          forall i | 0 <= i < |s| ensures IsSpace(s[i]) {
            if i > 0 { assert s[i] == s[1..][i - 1]; }
          }
        }
      }
    }
  }

  /** Splitting a word followed by whitespace and more text yields the word
      first. */
  lemma {:induction false} SplitWsWordThenSpace(w: string, c: char, t: string)
    requires w != [] && NoSpace(w) && IsSpace(c)
    ensures SplitWs(w + [c] + t) == [w] + SplitWs(t)
  {
    var s := w + [c] + t;
    WordLengthOfWord(w, [c] + t);
    assert s[..|w|] == w;
    assert s[|w|..] == [c] + t;
    assert SplitWs([c] + t) == SplitWs(t) by { assert ([c] + t)[1..] == t; }
  }

  /** On a word followed by whitespace, the leading word length is the word's. */
  lemma {:induction false} WordLengthOfWord(w: string, t: string)
    requires NoSpace(w)
    requires t != [] && IsSpace(t[0])
    ensures WordLength(w + t) == |w|
  {
    if w == [] {
      assert w + t == t;
    } else {
      assert (w + t)[1..] == w[1..] + t;
      WordLengthOfWord(w[1..], t);
    }
  }

  /** Splitting a single word gives that word. */
  lemma {:induction false} SplitWsOfWord(w: string)
    requires w != [] && NoSpace(w)
    ensures SplitWs(w) == [w]
  {
    var n := WordLength(w);
    assert n == |w|;
    assert w[..n] == w;
    assert w[n..] == [];
  }

  /** `" ".join(words).split()` gives the words back when each is a non-empty
      run of non-whitespace characters. */
  lemma {:induction false} SplitWsJoin(words: seq<string>)
    requires forall k :: 0 <= k < |words| ==> words[k] != [] && NoSpace(words[k])
    ensures SplitWs(JoinWith(" ", words)) == words
  {
    if |words| == 1 {
      SplitWsOfWord(words[0]);
    } else if |words| > 1 {
      SplitWsJoin(words[1..]);
      assert JoinWith(" ", words) == words[0] + [' '] + JoinWith(" ", words[1..]);
      SplitWsWordThenSpace(words[0], ' ', JoinWith(" ", words[1..]));
    }
  }

  /** `c.join(s.split(c)) == s`. */
  lemma {:induction false} JoinSplitOn(s: string, c: char)
    ensures JoinWith([c], SplitOn(s, c)) == s
  {
    if s != [] {
      JoinSplitOn(s[1..], c);
      var rest := SplitOn(s[1..], c);
      if s[0] == c {
        assert ([""] + rest)[1..] == rest;
      } else {
        var parts := [[s[0]] + rest[0]] + rest[1..];
        if |rest| == 1 {
          assert parts == [[s[0]] + rest[0]];
        } else {
          assert parts[1..] == rest[1..];
          assert JoinWith([c], rest) == rest[0] + [c] + JoinWith([c], rest[1..]);
        }
        assert s == [s[0]] + s[1..];
      }
    }
  }

  /** Splitting on `c` a text that starts with a part free of `c`. */
  lemma {:induction false} SplitOnPrefix(p: string, t: string, c: char)
    requires c !in p
    ensures SplitOn(p + t, c) == [p + SplitOn(t, c)[0]] + SplitOn(t, c)[1..]
  {
    if p == [] {
      var x := SplitOn(t, c);
      assert p + t == t;
      assert p + x[0] == x[0];
      assert x == [x[0]] + x[1..];
    } else {
      assert (p + t)[1..] == p[1..] + t;
      assert p[0] in p;
      assert c !in p[1..] by { assert forall x :: x in p[1..] ==> x in p; }
      SplitOnPrefix(p[1..], t, c);
      var x := SplitOn(t, c);
      var rest := SplitOn(p[1..] + t, c);
      assert rest[0] == p[1..] + x[0];
      assert rest[1..] == x[1..];
      assert (p + t)[0] == p[0];
      assert SplitOn(p + t, c) == [[p[0]] + rest[0]] + rest[1..];
      assert [p[0]] + (p[1..] + x[0]) == p + x[0];
    }
  }

  /** `c.join(parts).split(c) == parts` when no part holds `c`. */
  lemma {:induction false} SplitOnJoin(parts: seq<string>, c: char)
    requires |parts| >= 1
    requires forall k :: 0 <= k < |parts| ==> c !in parts[k]
    ensures SplitOn(JoinWith([c], parts), c) == parts
  {
    if |parts| == 1 {
      SplitOnPrefix(parts[0], "", c);
      assert parts[0] + "" == parts[0];
    } else {
      SplitOnJoin(parts[1..], c);
      var t := [c] + JoinWith([c], parts[1..]);
      assert JoinWith([c], parts) == parts[0] + t;
      SplitOnPrefix(parts[0], t, c);
      assert t[1..] == JoinWith([c], parts[1..]);
      assert t[0] == c;
      var y := SplitOn(t, c);
      assert y == [""] + SplitOn(t[1..], c);
      assert y[0] == "" && y[1..] == parts[1..];
      assert parts[0] + "" == parts[0];
      assert parts == [parts[0]] + parts[1..];
    }
  }

  /** Filtering to word characters changes nothing on a string of word characters. */
  lemma {:induction false} KeepWordCharsIdempotent(s: string)
    requires forall i :: 0 <= i < |s| ==> IsWordChar(s[i])
    ensures KeepWordChars(s) == s
  {
    if s != [] {
      KeepWordCharsIdempotent(s[1..]);
    }
  }

  /** Filtering one character keeps it exactly when it is a word character. */
  lemma KeepWordCharsChar(c: char)
    ensures KeepWordChars([c]) == if IsWordChar(c) then [c] else ""
  {
    assert [c][1..] == "";
  }

  /** Filtering works part by part, so it keeps the order and the number of
      the word characters. */
  lemma {:induction false} KeepWordCharsAppend(a: string, b: string)
    ensures KeepWordChars(a + b) == KeepWordChars(a) + KeepWordChars(b)
  {
    if a == [] {
      assert a + b == b;
    } else {
      assert (a + b)[0] == a[0] && (a + b)[1..] == a[1..] + b;
      KeepWordCharsAppend(a[1..], b);
    }
  }

  /** Joining words of word characters with a word character gives word
      characters. */
  lemma {:induction false} JoinWithWordChars(sep: string, parts: seq<string>)
    requires forall i :: 0 <= i < |sep| ==> IsWordChar(sep[i])
    requires forall k, i :: 0 <= k < |parts| && 0 <= i < |parts[k]| ==> IsWordChar(parts[k][i])
    ensures forall i :: 0 <= i < |JoinWith(sep, parts)| ==> IsWordChar(JoinWith(sep, parts)[i])
  {
    if |parts| > 1 {
      JoinWithWordChars(sep, parts[1..]);
      var t := JoinWith(sep, parts[1..]);
      var j := parts[0] + sep + t;
      assert JoinWith(sep, parts) == j;
      forall i | 0 <= i < |j| ensures IsWordChar(j[i]) {
        if i < |parts[0]| {
          assert j[i] == parts[0][i];
        } else if i < |parts[0]| + |sep| {
          assert j[i] == sep[i - |parts[0]|];
        } else {
          assert j[i] == t[i - |parts[0]| - |sep|];
        }
      }
    } else if |parts| == 1 {
      assert JoinWith(sep, parts) == parts[0];
    }
  }

  /** Case folding keeps an occurrence: if `w` occurs in `s`, its folded form
      occurs in the folded `s` at the same place. */
  lemma ContainsLower(s: string, w: string)
    requires Contains(s, w)
    ensures Contains(Lower(s), Lower(w))
  {
    var i :| 0 <= i <= |s| && w <= s[i..];
    assert Lower(w) <= Lower(s)[i..] by {
      forall k | 0 <= k < |w| ensures Lower(w)[k] == Lower(s)[i..][k] {
        assert w[k] == s[i + k];
      }
    }
  }

  /** Folding twice is folding once. */
  lemma LowerIdempotent(s: string)
    ensures Lower(Lower(s)) == Lower(s)
  {
  }
}

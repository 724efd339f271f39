/**
 * The JavaScript string built-ins the extension relies on: `join('')`,
 * `lastIndexOf`, `split('\n')`, `trim()`, `substring(0, n)` and the decimal
 * rendering of integers inside template literals.
 *
 * Strings are sequences of characters; JavaScript counts UTF-16 code units,
 * which coincide with characters outside the astral planes.
 */
module Text {

  /** `xs.join('')`, written so that appending one more piece is one step. */
  function Concat(xs: seq<string>): string
  {
    if xs == [] then "" else Concat(xs[..|xs| - 1]) + xs[|xs| - 1]
  }

  lemma {:induction false} ConcatCons(x: string, xs: seq<string>)
    ensures Concat([x] + xs) == x + Concat(xs)
    decreases |xs|
  {
    if xs != [] {
      var ys := [x] + xs;
      assert ys[..|ys| - 1] == [x] + xs[..|xs| - 1];
      ConcatCons(x, xs[..|xs| - 1]);
    }
  }

  lemma ConcatSnoc(xs: seq<string>, x: string)
    ensures Concat(xs + [x]) == Concat(xs) + x
  {
    assert (xs + [x])[..|xs|] == xs;
  }

  /** Appending `xs` then `y` is appending `xs + [y]`, whether or not `y` is kept. */
  lemma ConcatSnocIf(xs: seq<string>, y: string)
    ensures Concat(xs + (if y == "" then [] else [y])) == Concat(xs) + y
  {
    if y == "" {
      assert xs + [] == xs;
    } else {
      ConcatSnoc(xs, y);
    }
  }

  /** When `b + d == c + e`, the text `a + c + e` is `(a + b) + d`. */
  lemma Regroup(a: string, b: string, c: string, d: string, e: string)
    requires b + d == c + e
    ensures a + c + e == (a + b) + d
  {
    calc {
      a + c + e;
      a + (c + e);
      a + (b + d);
      (a + b) + d;
    }
  }

  /** `s.lastIndexOf(c)`: the last position holding `c`, or -1 when there is none. */
  function LastIndexOf(s: string, c: char): (r: int)
    ensures r == -1 <==> c !in s
    ensures r != -1 ==> 0 <= r < |s| && s[r] == c && c !in s[r + 1..]
  {
    var r := LastBefore(s, c, |s|);
    assert r != -1 ==> forall k :: r < k < |s| ==> s[r + 1..][k - r - 1] == s[k];
    r
  }

  /** The last position before `n` holding `c`, or -1 when there is none. */
  function LastBefore(s: string, c: char, n: nat): (r: int)
    requires n <= |s|
    ensures r == -1 ==> forall k :: 0 <= k < n ==> s[k] != c
    ensures r != -1 ==> 0 <= r < n && s[r] == c && forall k :: r < k < n ==> s[k] != c
  {
    if n == 0 then -1
    else if s[n - 1] == c then n - 1
    else LastBefore(s, c, n - 1)
  }

  /** Every occurrence of `c` lies at or before `LastIndexOf(s, c)`. */
  lemma LastIndexOfIsLast(s: string, c: char, k: nat)
    requires k < |s| && s[k] == c
    ensures k <= LastIndexOf(s, c)
  {
    var r := LastIndexOf(s, c);
    assert forall j :: r < j < |s| ==> s[j] == s[r + 1..][j - r - 1];
  }

  /** The first position holding `c`. */
  function IndexOf(s: string, c: char): (r: nat)
    requires c in s
    ensures r < |s| && s[r] == c && c !in s[..r]
  {
    if s[0] == c then 0
    else
      var r := IndexOf(s[1..], c);
      assert s[..r + 1] == [s[0]] + s[1..][..r];
      r + 1
  }

  /** `parts.join(sep)`. */
  function Join(parts: seq<string>, sep: char): string
  {
    if parts == [] then ""
    else if |parts| == 1 then parts[0]
    else parts[0] + [sep] + Join(parts[1..], sep)
  }

  /** `s.split(sep)`: the pieces between separators, never fewer than one. */
  function Split(s: string, sep: char): (parts: seq<string>)
    ensures |parts| >= 1
    ensures forall i :: 0 <= i < |parts| ==> sep !in parts[i]
    ensures Join(parts, sep) == s
    decreases |s|
  {
    if sep !in s then [s]
    else
      var i := IndexOf(s, sep);
      var rest := Split(s[i + 1..], sep);
      assert s == s[..i] + [sep] + s[i + 1..];
      [s[..i]] + rest
  }

  /** Splitting at the first separator peels off the piece in front of it. */
  lemma SplitCons(a: string, sep: char, b: string)
    requires sep !in a
    ensures Split(a + [sep] + b, sep) == [a] + Split(b, sep)
  {
    var s := a + [sep] + b;
    var i := IndexOf(s, sep);
    assert forall j :: 0 <= j < |a| ==> s[j] == a[j];
    assert forall j :: |a| < j <= |s| ==> s[..j][|a|] == sep;
    assert s[..i] == a;
    assert s[i + 1..] == b;
  }

  /** Each of `lines` followed by one `sep`. */
  function Terminated(lines: seq<string>, sep: char): seq<string>
  {
    if lines == [] then [] else [lines[0] + [sep]] + Terminated(lines[1..], sep)
  }

  /** Lines free of the separator, each terminated by it, split back into the lines and an empty rest. */
  lemma {:induction false} SplitTerminated(lines: seq<string>, sep: char)
    requires forall i :: 0 <= i < |lines| ==> sep !in lines[i]
    ensures Split(Concat(Terminated(lines, sep)), sep) == lines + [""]
    decreases |lines|
  {
    if lines == [] {
      assert sep !in "";
    } else {
      var head, tail := lines[0], lines[1..];
      var rest := Terminated(tail, sep);
      SplitTerminated(tail, sep);
      assert Terminated(lines, sep) == [head + [sep]] + rest;
      PeelTerminated(head, sep, rest);
      Uncons(lines, "");
    }
  }

  /** A non-empty sequence is its front followed by its last element. */
  lemma Unsnoc<T>(xs: seq<T>)
    requires xs != []
    ensures xs == xs[..|xs| - 1] + [xs[|xs| - 1]]
  {
  }

  /** `xs` is `ys` with some elements left out, the rest kept in order. */
  predicate SubseqOf<T(==)>(xs: seq<T>, ys: seq<T>)
    decreases |ys|
  {
    if xs == [] then true
    else if ys == [] then false
    else if xs[|xs| - 1] == ys[|ys| - 1] then SubseqOf(xs[..|xs| - 1], ys[..|ys| - 1])
    else SubseqOf(xs, ys[..|ys| - 1])
  }

  /** Leaving out the last element keeps a subsequence. */
  lemma {:induction false} SubseqDropLast<T>(xs: seq<T>, ys: seq<T>)
    requires xs != [] && SubseqOf(xs, ys)
    ensures SubseqOf(xs[..|xs| - 1], ys)
    decreases |xs| + |ys|, 0
  {
    var xs', ys' := xs[..|xs| - 1], ys[..|ys| - 1];
    if xs[|xs| - 1] == ys[|ys| - 1] {
      SubseqGrows(xs', ys', ys[|ys| - 1]);
      assert ys' + [ys[|ys| - 1]] == ys;
    } else {
      SubseqDropLast(xs, ys');
      SubseqGrows(xs', ys', ys[|ys| - 1]);
      assert ys' + [ys[|ys| - 1]] == ys;
    }
  }

  /** A subsequence of `ys` is one of `ys` with one more element. */
  lemma {:induction false} SubseqGrows<T>(xs: seq<T>, ys: seq<T>, y: T)
    requires SubseqOf(xs, ys)
    ensures SubseqOf(xs, ys + [y])
    decreases |xs| + |ys|, 1
  {
    var zs := ys + [y];
    assert zs[..|zs| - 1] == ys;
    if xs != [] && xs[|xs| - 1] == y {
      SubseqDropLast(xs, ys);
    }
  }

  /** Every element of a subsequence is an element of the whole. */
  lemma {:induction false} SubseqMembers<T>(xs: seq<T>, ys: seq<T>)
    requires SubseqOf(xs, ys)
    ensures forall x :: x in xs ==> x in ys
    decreases |ys|
  {
    if xs != [] {
      var xs', ys' := xs[..|xs| - 1], ys[..|ys| - 1];
      assert ys == ys' + [ys[|ys| - 1]];
      if xs[|xs| - 1] == ys[|ys| - 1] {
        SubseqMembers(xs', ys');
        assert xs == xs' + [xs[|xs| - 1]];
      } else {
        SubseqMembers(xs, ys');
      }
    }
  }

  /** Both sequences taking the same next element keeps a subsequence. */
  lemma SubseqSnoc<T>(xs: seq<T>, ys: seq<T>, y: T)
    requires SubseqOf(xs, ys)
    ensures SubseqOf(xs + [y], ys + [y])
  {
    assert (xs + [y])[..|xs|] == xs;
    assert (ys + [y])[..|ys|] == ys;
  }

  /** Concatenation is associative. */
  lemma SeqAssoc<T>(a: seq<T>, b: seq<T>, c: seq<T>)
    ensures a + b + c == a + (b + c)
  {
  }

  /** Dropping a prefix and appending commute. */
  lemma DropSnoc<T>(xs: seq<T>, n: nat, y: T)
    requires n <= |xs|
    ensures (xs + [y])[n..] == xs[n..] + [y]
  {
  }

  /** Appending to a non-empty sequence keeps its head in front. */
  lemma Uncons<T>(xs: seq<T>, y: T)
    requires xs != []
    ensures xs + [y] == [xs[0]] + (xs[1..] + [y])
  {
  }

  lemma PeelTerminated(head: string, sep: char, rest: seq<string>)
    requires sep !in head
    ensures Split(Concat([head + [sep]] + rest), sep) == [head] + Split(Concat(rest), sep)
  {
    ConcatCons(head + [sep], rest);
    SplitCons(head, sep, Concat(rest));
  }

  /** Parts free of the separator are what splitting their join gives back. */
  lemma {:induction false} SplitJoin(parts: seq<string>, sep: char)
    requires parts != []
    requires forall i :: 0 <= i < |parts| ==> sep !in parts[i]
    ensures Split(Join(parts, sep), sep) == parts
    decreases |parts|
  {
    var head, tail := parts[0], parts[1..];
    if tail == [] {
      assert Join(parts, sep) == head;
    } else {
      SplitJoin(tail, sep);
      var rest := Join(tail, sep);
      assert Join(parts, sep) == head + [sep] + rest;
      SplitCons(head, sep, rest);
      assert parts == [head] + tail;
    }
  }

  /** The characters `trim()` removes: ECMAScript WhiteSpace and LineTerminator. */
  predicate IsWhitespace(c: char)
  {
    c == '\t' || c == '\n' || c == '\U{000B}' || c == '\U{000C}' || c == '\r' || c == ' '
    || c == '\U{00A0}' || c == '\U{1680}' || ('\U{2000}' <= c <= '\U{200A}')
    || c == '\U{2028}' || c == '\U{2029}' || c == '\U{202F}' || c == '\U{205F}'
    || c == '\U{3000}' || c == '\U{FEFF}'
  }

  /** `s.trimStart()`: drops the leading whitespace, and nothing else. */
  function TrimStart(s: string): (r: string)
    ensures |r| <= |s| && r == s[|s| - |r|..]
    ensures forall i :: 0 <= i < |s| - |r| ==> IsWhitespace(s[i])
    ensures r != [] ==> !IsWhitespace(r[0])
  {
    if s != [] && IsWhitespace(s[0]) then
      var r := TrimStart(s[1..]);
      assert forall i :: 1 <= i < |s| - |r| ==> s[i] == s[1..][i - 1];
      r
    else s
  }

  /** `s.trimEnd()`: drops the trailing whitespace, and nothing else. */
  function TrimEnd(s: string): (r: string)
    ensures |r| <= |s| && r == s[..|r|]
    ensures forall i :: |r| <= i < |s| ==> IsWhitespace(s[i])
    ensures r != [] ==> !IsWhitespace(r[|r| - 1])
  {
    if s != [] && IsWhitespace(s[|s| - 1]) then
      var r := TrimEnd(s[..|s| - 1]);
      r
    else s
  }

  /** `s.trim()`. */
  function Trim(s: string): (r: string)
    ensures |r| <= |s|
    ensures r != [] ==> !IsWhitespace(r[0]) && !IsWhitespace(r[|r| - 1])
  {
    TrimEnd(TrimStart(s))
  }

  /** `trim()` leaves nothing exactly when the text is all whitespace. */
  lemma TrimBlank(s: string)
    ensures Trim(s) == [] <==> forall i :: 0 <= i < |s| ==> IsWhitespace(s[i])
  {
    var t := TrimStart(s);
    assert forall i :: |s| - |t| <= i < |s| ==> s[i] == t[i - (|s| - |t|)];
  }

  /** The first character of `s` that is not whitespace is `c`. */
  predicate LeadsWith(s: string, c: char)
  {
    exists k :: 0 <= k < |s| && s[k] == c && forall i :: 0 <= i < k ==> IsWhitespace(s[i])
  }

  /** `s.trim().startsWith(c)` holds exactly when the first non-whitespace character of `s` is `c`. */
  lemma TrimStartsWith(s: string, c: char)
    requires !IsWhitespace(c)
    ensures (Trim(s) != [] && Trim(s)[0] == c) <==> LeadsWith(s, c)
  {
    var t := TrimStart(s);
    var k := |s| - |t|;
    if Trim(s) != [] && Trim(s)[0] == c {
      assert s[k] == c;
    }
    if LeadsWith(s, c) {
      var k' :| 0 <= k' < |s| && s[k'] == c && forall i :: 0 <= i < k' ==> IsWhitespace(s[i]);
      if k < k' {
        assert t[0] == s[k];
      } else if k' < k {
        assert IsWhitespace(s[k']);
      }
      assert t != [] && t[0] == c;
      assert !IsWhitespace(t[0]);
      assert TrimEnd(t) != [];
    }
  }

  /** Trimming a text padded with whitespace on both sides gives back the text, when it neither starts nor ends with whitespace. */
  lemma TrimPadded(a: string, r: string, b: string)
    requires forall i :: 0 <= i < |a| ==> IsWhitespace(a[i])
    requires forall i :: 0 <= i < |b| ==> IsWhitespace(b[i])
    requires r != [] && !IsWhitespace(r[0]) && !IsWhitespace(r[|r| - 1])
    ensures Trim(a + r + b) == r
  {
    var t := r + b;
    assert t[0] == r[0];
    assert a + r + b == a + t;
    TrimStartPadded(a, t);
    TrimEndPadded(r, b);
  }

  lemma TrimStartPadded(a: string, t: string)
    requires forall i :: 0 <= i < |a| ==> IsWhitespace(a[i])
    requires t != [] && !IsWhitespace(t[0])
    ensures TrimStart(a + t) == t
  {
    var s := a + t;
    assert s[|a|] == t[0];
    assert forall i :: 0 <= i < |a| ==> s[i] == a[i];
    assert |s| - |TrimStart(s)| == |a|;
  }

  lemma TrimEndPadded(r: string, b: string)
    requires forall i :: 0 <= i < |b| ==> IsWhitespace(b[i])
    requires r != [] && !IsWhitespace(r[|r| - 1])
    ensures TrimEnd(r + b) == r
  {
    var t := r + b;
    assert t[|r| - 1] == r[|r| - 1];
    assert forall i :: |r| <= i < |t| ==> t[i] == b[i - |r|];
    assert |TrimEnd(t)| == |r|;
  }

  /** `s.substring(0, n)` for a non-negative `n`. */
  function Prefix(s: string, n: nat): (r: string)
    ensures r <= s
    ensures |r| == if n <= |s| then n else |s|
  {
    if n <= |s| then s[..n] else s
  }

  predicate IsDigit(c: char)
  {
    '0' <= c <= '9'
  }

  predicate AllDigits(s: string)
  {
    forall i :: 0 <= i < |s| ==> IsDigit(s[i])
  }

  function DigitChar(d: nat): (c: char)
    requires d < 10
    ensures IsDigit(c) && c as int - '0' as int == d
  {
    ('0' as int + d) as char
  }

  /** The decimal rendering of a natural number, without leading zeros. */
  function NatToString(n: nat): (s: string)
    ensures s != [] && AllDigits(s)
    ensures |s| > 1 ==> s[0] != '0'
  {
    if n < 10 then [DigitChar(n)]
    else
      var p := NatToString(n / 10);
      assert (p + [DigitChar(n % 10)])[0] == p[0];
      p + [DigitChar(n % 10)]
  }

  /** The value of a string of decimal digits. */
  function DigitsValue(s: string): nat
    requires AllDigits(s)
  {
    if s == [] then 0
    else DigitsValue(s[..|s| - 1]) * 10 + (s[|s| - 1] as int - '0' as int)
  }

  lemma {:induction false} DigitsValueOfNatToString(n: nat)
    ensures DigitsValue(NatToString(n)) == n
  {
    if n >= 10 {
      var s := NatToString(n);
      assert s[..|s| - 1] == NatToString(n / 10);
      DigitsValueOfNatToString(n / 10);
    }
  }

  lemma NatToStringInjective(m: nat, n: nat)
    requires NatToString(m) == NatToString(n)
    ensures m == n
  {
    DigitsValueOfNatToString(m);
    DigitsValueOfNatToString(n);
  }

  /** The decimal rendering of an integer, with a leading '-' when negative. */
  function IntToString(n: int): (s: string)
    ensures s != [] && (s[0] == '-' || IsDigit(s[0]))
    ensures forall i :: 1 <= i < |s| ==> IsDigit(s[i])
  {
    if n < 0 then "-" + NatToString(-n) else NatToString(n)
  }

  lemma IntToStringInjective(m: int, n: int)
    requires IntToString(m) == IntToString(n)
    ensures m == n
  {
    var s := IntToString(m);
    assert s[0] == '-' <==> m < 0;
    assert s[0] == '-' <==> n < 0;
    if m < 0 {
      assert NatToString(-m) == s[1..] == NatToString(-n);
      NatToStringInjective(-m, -n);
    } else {
      NatToStringInjective(m, n);
    }
  }
}

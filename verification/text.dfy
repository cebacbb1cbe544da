/** String helpers with the meaning of the JavaScript string methods the handlers use:
    `trim`, `split`, `join`, `indexOf`, `lastIndexOf`, `includes`, `endsWith`, `toLowerCase`. */
module Text {

  /** The characters JavaScript's `trim` removes: WhiteSpace and LineTerminator of ECMAScript. */
  predicate IsSpace(c: char) {
    || c == ' ' || c == '\t' || c == '\n' || c == '\r'
    || c == '\U{000B}' || c == '\U{000C}' || c == '\U{00A0}' || c == '\U{FEFF}'
    || c == '\U{1680}' || c == '\U{2028}' || c == '\U{2029}' || c == '\U{202F}'
    || c == '\U{205F}' || c == '\U{3000}' || ('\U{2000}' <= c <= '\U{200A}')
  }

  predicate AllSpace(s: string) {
    forall i :: 0 <= i < |s| ==> IsSpace(s[i])
  }

  /** Free of outer white space: what `trim` returns. */
  predicate Trimmed(s: string) {
    s == [] || (!IsSpace(s[0]) && !IsSpace(s[|s| - 1]))
  }

  /** `s.trimStart()`: the longest suffix of `s` that does not start with white space. */
  function TrimStart(s: string): (r: string)
    ensures |r| <= |s| && r == s[|s| - |r|..]
    ensures forall i :: 0 <= i < |s| - |r| ==> IsSpace(s[i])
    ensures r == [] || !IsSpace(r[0])
  {
    if |s| > 0 && IsSpace(s[0]) then
      var r := TrimStart(s[1..]);
      assert forall i :: 1 <= i < |s| - |r| ==> s[i] == s[1..][i - 1];
      r
    else s
  }

  /** `s.trimEnd()`: the longest prefix of `s` that does not end with white space. */
  function TrimEnd(s: string): (r: string)
    ensures |r| <= |s| && r == s[..|r|]
    ensures forall i :: |r| <= i < |s| ==> IsSpace(s[i])
    ensures r == [] || !IsSpace(r[|r| - 1])
  {
    if |s| > 0 && IsSpace(s[|s| - 1]) then
      var r := TrimEnd(s[..|s| - 1]);
      assert forall i :: |r| <= i < |s| - 1 ==> s[i] == s[..|s| - 1][i];
      r
    else s
  }

  /** How many white-space characters `trim` removes from the front of `s`. */
  function LeadingSpace(s: string): (n: nat)
    ensures n <= |s|
  {
    |s| - |TrimStart(s)|
  }

  /** `s.trim()`: `s` without its leading and trailing white space. */
  function Trim(s: string): (r: string)
    ensures |r| <= |s| && Trimmed(r)
  {
    TrimEnd(TrimStart(s))
  }

  /** What `trim` removes is white space at both ends and nothing else: the result is
      the infix of `s` after its leading white space. */
  lemma TrimIsInfix(s: string)
    ensures LeadingSpace(s) + |Trim(s)| <= |s|
    ensures Trim(s) == s[LeadingSpace(s)..LeadingSpace(s) + |Trim(s)|]
    ensures forall i :: 0 <= i < LeadingSpace(s) ==> IsSpace(s[i])
    ensures forall i :: LeadingSpace(s) + |Trim(s)| <= i < |s| ==> IsSpace(s[i])
  {
    TrimStartIsSuffix(s);
    TrimIsPrefixOfStart(s);
    InfixOfParts(s, TrimStart(s), Trim(s), LeadingSpace(s));
  }

  /** `trimStart` leaves the suffix after the leading white space. */
  lemma TrimStartIsSuffix(s: string)
    ensures TrimStart(s) == s[LeadingSpace(s)..]
    ensures forall i :: 0 <= i < LeadingSpace(s) ==> IsSpace(s[i])
  {
  }

  /** `trim` leaves a prefix of what `trimStart` leaves, followed there by white space. */
  lemma TrimIsPrefixOfStart(s: string)
    ensures |Trim(s)| <= |TrimStart(s)| && Trim(s) == TrimStart(s)[..|Trim(s)|]
    ensures forall j :: |Trim(s)| <= j < |TrimStart(s)| ==> IsSpace(TrimStart(s)[j])
  {
    assert Trim(s) == TrimEnd(TrimStart(s));
  }

  /** A prefix `r` of the suffix `t` of `s` from `n` on, followed in `t` by white space
      only, is the infix of `s` at `n`, followed in `s` by white space only. */
  lemma InfixOfParts(s: string, t: string, r: string, n: nat)
    requires n <= |s| && t == s[n..]
    requires |r| <= |t| && r == t[..|r|]
    requires forall j :: |r| <= j < |t| ==> IsSpace(t[j])
    ensures n + |r| <= |s| && r == s[n..n + |r|]
    ensures forall i :: n + |r| <= i < |s| ==> IsSpace(s[i])
  {
    SliceOfSuffix(s, n, |r|);
    forall i | n + |r| <= i < |s|
      ensures IsSpace(s[i])
    {
      assert s[i] == t[i - n];
    }
  }

  /** A prefix of a suffix is an infix. */
  lemma SliceOfSuffix<T>(s: seq<T>, n: nat, m: nat)
    requires n + m <= |s|
    ensures s[n..][..m] == s[n..n + m]
  {
  }

  /** A slice of a prefix is the same slice of the whole. */
  lemma SliceOfPrefix<T>(s: seq<T>, c: nat, a: nat, b: nat)
    requires a <= b <= c <= |s|
    ensures s[..c][a..b] == s[a..b]
  {
  }

  /** A string already free of outer white space is its own trim. */
  lemma TrimOfTrimmed(s: string)
    requires Trimmed(s)
    ensures Trim(s) == s
  {
  }

  /** `trim` is idempotent. */
  lemma TrimIdempotent(s: string)
    ensures Trim(Trim(s)) == Trim(s)
  {
    TrimOfTrimmed(Trim(s));
  }

  /** The trim of a string is empty exactly when the string is all white space. */
  lemma TrimEmptyIff(s: string)
    ensures Trim(s) == [] <==> AllSpace(s)
  {
    var n := LeadingSpace(s);
    var r := Trim(s);
    TrimIsInfix(s);
    assert r != [] ==> r[0] == s[n];
  }

  /** Trimming a prefix of `s` gives an infix of `s` that ends inside the prefix. */
  lemma TrimOfPrefixIsInfix(s: string, c: nat)
    requires c <= |s|
    ensures var n := LeadingSpace(s[..c]);
      n + |Trim(s[..c])| <= c && Trim(s[..c]) == s[n..n + |Trim(s[..c])|]
  {
    TrimIsInfix(s[..c]);
    SliceOfPrefix(s, c, LeadingSpace(s[..c]), LeadingSpace(s[..c]) + |Trim(s[..c])|);
  }

  /** Trimming keeps a last character that is not white space. */
  lemma TrimKeepsSolidEnd(s: string)
    requires |s| > 0 && !IsSpace(s[|s| - 1])
    ensures |Trim(s)| > 0 && Trim(s)[|Trim(s)| - 1] == s[|s| - 1]
  {
    TrimIsInfix(s);
  }

  /** White space in front of a solid character is all `trimStart` can remove. */
  lemma {:induction false} TrimStartBeforeSolid(a: string, b: string)
    requires |b| > 0 && !IsSpace(b[0])
    ensures TrimStart(a + b) == TrimStart(a) + b
  {
    if |a| > 0 {
      assert (a + b)[0] == a[0];
      if IsSpace(a[0]) {
        assert (a + b)[1..] == a[1..] + b;
        TrimStartBeforeSolid(a[1..], b);
      }
    } else {
      assert a + b == b;
    }
  }

  /** Trimming a string that ends in a solid-edged piece removes nothing from that piece. */
  lemma TrimBeforeSolid(a: string, b: string)
    requires |b| > 0 && !IsSpace(b[0]) && !IsSpace(b[|b| - 1])
    ensures Trim(a + b) == TrimStart(a) + b
  {
    TrimStartBeforeSolid(a, b);
    var t := TrimStart(a) + b;
    assert t[|t| - 1] == b[|b| - 1];
  }

  /** `s.includes(c)` for a one-character needle. */
  predicate Contains(s: string, c: char) {
    c in s
  }

  /** `s.endsWith(suffix)`. */
  predicate EndsWith(s: string, suffix: string) {
    |suffix| <= |s| && s[|s| - |suffix|..] == suffix
  }

  /** `s.startsWith(prefix)`. */
  predicate StartsWith(s: string, prefix: string) {
    |prefix| <= |s| && s[..|prefix|] == prefix
  }

  /** `s.indexOf(c)`: the first position of `c`, or -1. */
  function IndexOf(s: string, c: char): (i: int)
    ensures -1 <= i < |s|
    ensures i >= 0 ==> s[i] == c && c !in s[..i]
    ensures i == -1 <==> c !in s
  {
    if |s| == 0 then -1
    else if s[0] == c then 0
    else
      var j := IndexOf(s[1..], c);
      if j == -1 then
        assert c !in s by {
          assert s == [s[0]] + s[1..];
        }
        -1
      else
        assert c !in s[..j + 1] by {
          assert s[..j + 1] == [s[0]] + s[1..][..j];
        }
        j + 1
  }

  /** A position holding `c` with no `c` before it is the one `indexOf` finds. */
  lemma IndexOfAt(s: string, c: char, n: nat)
    requires n < |s| && s[n] == c && c !in s[..n]
    ensures IndexOf(s, c) == n
    decreases n
  {
    if n > 0 {
      assert s[..n][0] == s[0];
      assert s[1..][..n - 1] == s[..n][1..];
      IndexOfAt(s[1..], c, n - 1);
    }
  }

  /** `s.lastIndexOf(c)`: the last position of `c`, or -1. */
  function LastIndexOf(s: string, c: char): (i: int)
    ensures -1 <= i < |s|
    ensures i >= 0 ==> s[i] == c && c !in s[i + 1..]
    ensures i == -1 <==> c !in s
  {
    if |s| == 0 then -1
    else if s[|s| - 1] == c then |s| - 1
    else
      var init := s[..|s| - 1];
      var j := LastIndexOf(init, c);
      if j == -1 then
        assert c !in s by {
          assert s == init + [s[|s| - 1]];
        }
        -1
      else
        assert c !in s[j + 1..] by {
          assert s[j + 1..] == init[j + 1..] + [s[|s| - 1]];
        }
        j
  }

  /** A position holding `c` with no `c` after it is the one `lastIndexOf` finds. */
  lemma LastIndexOfAt(s: string, c: char, n: nat)
    requires n < |s| && s[n] == c && c !in s[n + 1..]
    ensures LastIndexOf(s, c) == n
    decreases |s|
  {
    if n < |s| - 1 {
      var init := s[..|s| - 1];
      assert s[|s| - 1] == s[n + 1..][|s| - 2 - n];
      assert init[n + 1..] == s[n + 1..|s| - 1];
      LastIndexOfAt(init, c, n);
    }
  }

  /** `parts.join(sep)`. */
  function Join(parts: seq<string>, sep: string): string {
    if |parts| == 0 then ""
    else if |parts| == 1 then parts[0]
    else parts[0] + sep + Join(parts[1..], sep)
  }

  /** Joining one more part adds the separator and that part at the end. */
  lemma {:induction false} JoinAppend(parts: seq<string>, last: string, sep: string)
    requires |parts| >= 1
    ensures Join(parts + [last], sep) == Join(parts, sep) + sep + last
  {
    if |parts| > 1 {
      assert (parts + [last])[1..] == parts[1..] + [last];
      JoinAppend(parts[1..], last, sep);
    }
  }

  /** `s.split(sep)` for a one-character separator: the pieces between separators,
      so joining them back gives `s` again. */
  function Split(s: string, sep: char): (parts: seq<string>)
    ensures |parts| >= 1
    decreases |s|
  {
    var k := IndexOf(s, sep);
    if k == -1 then [s] else [s[..k]] + Split(s[k + 1..], sep)
  }

  /** No piece of a split contains the separator. */
  lemma {:induction false} SplitPiecesLackSeparator(s: string, sep: char)
    ensures forall i :: 0 <= i < |Split(s, sep)| ==> sep !in Split(s, sep)[i]
    decreases |s|
  {
    var k := IndexOf(s, sep);
    if k != -1 {
      SplitPiecesLackSeparator(s[k + 1..], sep);
    }
  }

  /** Joining the pieces of a split with the separator gives the string back. */
  lemma {:induction false} JoinSplit(s: string, sep: char)
    ensures Join(Split(s, sep), [sep]) == s
    decreases |s|
  {
    var k := IndexOf(s, sep);
    if k != -1 {
      var tail := s[k + 1..];
      SplitAt(s, sep, k);
      JoinCons(s[..k], Split(tail, sep), [sep]);
      JoinSplit(tail, sep);
      assert s == s[..k] + [sep] + tail;
    }
  }

  /** Joining a part in front of at least one other part puts the separator between. */
  lemma JoinCons(x: string, rest: seq<string>, sep: string)
    requires |rest| >= 1
    ensures Join([x] + rest, sep) == x + sep + Join(rest, sep)
  {
    assert ([x] + rest)[1..] == rest;
  }

  /** Splitting the empty string gives one empty piece. */
  lemma SplitEmpty(sep: char)
    ensures Split("", sep) == [""]
  {
    assert IndexOf("", sep) == -1;
  }

  /** Splitting a join of separator-free pieces gives back the pieces. */
  lemma {:induction false} SplitJoin(parts: seq<string>, sep: char)
    requires |parts| >= 1
    requires forall i :: 0 <= i < |parts| ==> sep !in parts[i]
    ensures Split(Join(parts, [sep]), sep) == parts
  {
    if |parts| == 1 {
      assert IndexOf(parts[0], sep) == -1;
    } else {
      var tail := Join(parts[1..], [sep]);
      var s := parts[0] + [sep] + tail;
      assert s[..|parts[0]|] == parts[0];
      IndexOfAt(s, sep, |parts[0]|);
      assert s[|parts[0]| + 1..] == tail;
      SplitJoin(parts[1..], sep);
    }
  }

  /** Appending a separator and a separator-free piece appends that piece to the split. */
  lemma {:induction false} SplitAppend(a: string, sep: char, b: string)
    requires sep !in b
    ensures Split(a + [sep] + b, sep) == Split(a, sep) + [b]
    decreases |a|
  {
    var k := IndexOf(a, sep);
    if k == -1 {
      SplitAppendLast(a, sep, b);
    } else {
      var t := a[k + 1..];
      SplitAppendStep(a, sep, b, k);
      SplitAppend(t, sep, b);
      SplitAt(a, sep, k);
      ConsAppend(a[..k], Split(t, sep), b);
    }
  }

  /** A split cuts at the first separator. */
  lemma SplitAt(s: string, sep: char, k: int)
    requires k == IndexOf(s, sep) && k != -1
    ensures Split(s, sep) == [s[..k]] + Split(s[k + 1..], sep)
  {
    var parts := Split(s, sep);
    assert parts == if k == -1 then [s] else [s[..k]] + Split(s[k + 1..], sep);
  }

  /** Putting an element in front commutes with appending one at the end. */
  lemma ConsAppend<T>(x: T, m: seq<T>, y: T)
    ensures [x] + (m + [y]) == ([x] + m) + [y]
  {
  }

  /** Without a separator in `a`, the split of `a`, a separator and `b` is `[a, b]`. */
  lemma SplitAppendLast(a: string, sep: char, b: string)
    requires IndexOf(a, sep) == -1 && sep !in b
    ensures Split(a, sep) == [a]
    ensures Split(a + [sep] + b, sep) == [a, b]
  {
    var s := a + [sep] + b;
    assert IndexOf(s, sep) == |a| by {
      assert s[..|a|] == a;
      IndexOfAt(s, sep, |a|);
    }
    assert s[..|a|] == a && s[|a| + 1..] == b;
    assert Split(b, sep) == [b] by {
      assert IndexOf(b, sep) == -1;
    }
  }

  /** With a first separator at `k` in `a`, the split cuts there before reaching `b`. */
  lemma SplitAppendStep(a: string, sep: char, b: string, k: int)
    requires k == IndexOf(a, sep) && k != -1
    ensures Split(a + [sep] + b, sep) == [a[..k]] + Split(a[k + 1..] + [sep] + b, sep)
  {
    var s := a + [sep] + b;
    IndexOfExtend(a, [sep] + b, sep);
    assert s == a + ([sep] + b);
    assert s[k + 1..] == a[k + 1..] + [sep] + b;
    assert s[..k] == a[..k];
    SplitAt(s, sep, k);
  }

  /** The first occurrence in `a` is still the first once something is appended. */
  lemma IndexOfExtend(a: string, x: string, c: char)
    requires IndexOf(a, c) != -1
    ensures IndexOf(a + x, c) == IndexOf(a, c)
  {
    var k := IndexOf(a, c);
    assert (a + x)[..k] == a[..k];
    IndexOfAt(a + x, c, k);
  }

  /** ASCII letters lower-cased; every other character kept. */
  function ToLowerChar(c: char): char {
    if 'A' <= c <= 'Z' then (c as int + 32) as char else c
  }

  /** `s.toLowerCase()` restricted to the ASCII letters. */
  function ToLower(s: string): (r: string)
    ensures |r| == |s|
    ensures forall i :: 0 <= i < |s| ==> r[i] == ToLowerChar(s[i])
  {
    if |s| == 0 then "" else [ToLowerChar(s[0])] + ToLower(s[1..])
  }
}

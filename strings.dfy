/** The few operations on Python strings and lists that the annotation code relies on,
    with Python's semantics: `str.split` on one character, `str.replace`, the substring
    test `in`, `str.strip`, `int` on a decimal string and the normalisation of a
    (possibly negative) index into a list or a string. */
module Strings {
  import opened Wrappers

  // ---------------------------------------------------------------------------
  // Indexing

  /** The cell that Python's `xs[i]` reaches in a sequence of length `n`: a negative
      index counts from the end, and anything outside `-n <= i < n` raises IndexError
      (here: None). */
  function ResolveIndex(i: int, n: nat): (r: Option<nat>)
    ensures r.Some? <==> -(n as int) <= i < n
    ensures r.Some? ==> r.value < n && (if i < 0 then r.value == n + i else r.value == i)
  {
    if 0 <= i < n then Some(i)
    else if -(n as int) <= i < 0 then Some(n + i)
    else None
  }

  /** `[x] * n` */
  function Fill(x: int, n: nat): (r: seq<int>)
    ensures |r| == n && forall k :: 0 <= k < n ==> r[k] == x
  {
    seq(n, _ => x)
  }

  // ---------------------------------------------------------------------------
  // split / join

  /** `s.split(sep)` for a one-character separator: the maximal pieces of `s`
      between separators, always at least one (possibly empty) piece. */
  function Split(s: string, sep: char): (parts: seq<string>)
    ensures |parts| >= 1
  {
    if s == [] then [""]
    else
      var rest := Split(s[1..], sep);
      if s[0] == sep then [""] + rest
      else [[s[0]] + rest[0]] + rest[1..]
  }

  /** No part holds the separator, and there is more than one part exactly when
      the separator occurs. */
  lemma {:induction false} SplitSpec(s: string, sep: char)
    ensures var parts := Split(s, sep);
      && (forall k :: 0 <= k < |parts| ==> sep !in parts[k])
      && (|parts| == 1 <==> sep !in s)
  {
    if s != [] {
      SplitSpec(s[1..], sep);
      var rest := Split(s[1..], sep);
      if s[0] != sep {
        assert forall c :: c in [s[0]] + rest[0] ==> c == s[0] || c in rest[0];
      }
    }
  }

  /** `sep.join(parts)` */
  function Join(parts: seq<string>, sep: char): string
    requires |parts| >= 1
  {
    if |parts| == 1 then parts[0] else parts[0] + [sep] + Join(parts[1..], sep)
  }

  /** Splitting and joining again gives back the string. */
  lemma {:induction false} JoinSplit(s: string, sep: char)
    ensures Join(Split(s, sep), sep) == s
  {
    if s != [] {
      JoinSplit(s[1..], sep);
      var rest := Split(s[1..], sep);
      if s[0] != sep && |rest| > 1 {
        calc {
          Join(Split(s, sep), sep);
          ([s[0]] + rest[0]) + [sep] + Join(rest[1..], sep);
          [s[0]] + (rest[0] + [sep] + Join(rest[1..], sep));
          [s[0]] + Join(rest, sep);
        }
      }
    }
  }

  /** Joining pieces free of the separator and splitting again gives back the pieces. */
  lemma {:induction false} SplitJoin(parts: seq<string>, sep: char)
    requires |parts| >= 1
    requires forall k :: 0 <= k < |parts| ==> sep !in parts[k]
    ensures Split(Join(parts, sep), sep) == parts
  {
    if |parts| == 1 {
      SplitPiece(parts[0], [], sep);
    } else {
      var rest := parts[1..];
      var joined := Join(rest, sep);
      SplitJoin(rest, sep);
      SplitPiece(parts[0], joined, sep);
      assert Join(parts, sep) == parts[0] + [sep] + joined;
      assert parts == [parts[0]] + rest;
    }
  }

  /** A separator-free piece in front of `[sep] + t` (or at the very end) becomes the
      first part of the split. */
  lemma {:induction false} SplitPiece(p: string, t: string, sep: char)
    requires sep !in p
    ensures t == [] ==> Split(p, sep) == [p]
    ensures Split(p + [sep] + t, sep) == [p] + Split(t, sep)
  {
    if p == [] {
      assert p + [sep] + t == [sep] + t;
      assert ([sep] + t)[1..] == t;
    } else {
      SplitPiece(p[1..], t, sep);
      assert p == [p[0]] + p[1..];
      if t == [] {
        assert Split(p, sep) == [[p[0]] + p[1..]];
      }
      var whole := p + [sep] + t;
      assert whole[0] == p[0] && whole[1..] == p[1..] + [sep] + t;
      var rest := Split(whole[1..], sep);
      assert rest == [p[1..]] + Split(t, sep);
      assert Split(whole, sep) == [[p[0]] + rest[0]] + rest[1..];
    }
  }

  /** Two separator-free pieces joined by one separator split back into the two. */
  lemma SplitPair(first: string, second: string, sep: char)
    requires sep !in first && sep !in second
    ensures Split(first + [sep] + second, sep) == [first, second]
  {
    SplitPiece(second, [], sep);
    SplitPiece(first, second, sep);
  }

  /** The first part of a split is the text before the first separator. */
  lemma {:induction false} SplitHead(s: string, sep: char)
    ensures var head := Split(s, sep)[0];
      && |head| <= |s|
      && head == s[..|head|]
      && (|head| < |s| ==> s[|head|] == sep)
      && (|head| == |s| <==> sep !in s)
  {
    if s != [] {
      SplitHead(s[1..], sep);
    }
    SplitSpec(s, sep);
  }

  // ---------------------------------------------------------------------------
  // substring test and replace

  /** `sub` occurs in `s` starting at index `i`. */
  ghost predicate OccursAt(s: string, sub: string, i: int)
  {
    0 <= i && i + |sub| <= |s| && s[i..i + |sub|] == sub
  }

  /** Python's `sub in s`. */
  function Contains(s: string, sub: string): bool
    decreases |s|
  {
    if |s| < |sub| then false
    else s[..|sub|] == sub || Contains(s[1..], sub)
  }

  /** `Contains` is the substring relation. */
  lemma {:induction false} ContainsIff(s: string, sub: string)
    ensures Contains(s, sub) <==> exists i :: OccursAt(s, sub, i)
    decreases |s|
  {
    if |s| >= |sub| && s[..|sub|] == sub {
      assert OccursAt(s, sub, 0);
    } else if |s| >= |sub| {
      ContainsIff(s[1..], sub);
      if Contains(s[1..], sub) {
        var i :| OccursAt(s[1..], sub, i);
        assert s[i + 1..i + 1 + |sub|] == s[1..][i..i + |sub|];
        assert OccursAt(s, sub, i + 1);
      }
      if exists i :: OccursAt(s, sub, i) {
        var i :| OccursAt(s, sub, i);
        assert i > 0;
        assert s[1..][i - 1..i - 1 + |sub|] == s[i..i + |sub|];
        assert OccursAt(s[1..], sub, i - 1);
      }
    }
  }

  /** An occurrence found is an occurrence reported. */
  lemma ContainsAt(s: string, sub: string, i: int)
    requires OccursAt(s, sub, i)
    ensures Contains(s, sub)
  {
    ContainsIff(s, sub);
  }

  /** A pattern with a character that `s` lacks does not occur in `s`. */
  lemma {:induction false} AbsentChar(s: string, sub: string, c: char)
    requires c in sub && c !in s
    ensures !Contains(s, sub)
    decreases |s|
  {
    if |s| >= |sub| {
      assert s[..|sub|] != sub by {
        var i :| 0 <= i < |sub| && sub[i] == c;
        assert s[i] != c;
      }
      AbsentChar(s[1..], sub, c);
    }
  }

  /** Python's `s.replace(pat, rep)`: every non-overlapping occurrence of `pat`,
      scanning from the left, is replaced by `rep`. */
  function Replace(s: string, pat: string, rep: string): string
    requires pat != []
    decreases |s|
  {
    if |s| < |pat| then s
    else if s[..|pat|] == pat then rep + Replace(s[|pat|..], pat, rep)
    else [s[0]] + Replace(s[1..], pat, rep)
  }

  /** A string in which the pattern does not occur is left unchanged. */
  lemma {:induction false} ReplaceAbsent(s: string, pat: string, rep: string)
    requires pat != []
    requires !Contains(s, pat)
    ensures Replace(s, pat, rep) == s
    decreases |s|
  {
    if |s| >= |pat| {
      ReplaceAbsent(s[1..], pat, rep);
      assert s == [s[0]] + s[1..];
    }
  }

  /** When the first occurrence of the pattern is the one right after `x`, the text
      before it is kept, the occurrence replaced, and the rest replaced in turn. */
  lemma {:induction false} ReplaceFirst(x: string, pat: string, rep: string, y: string)
    requires pat != []
    requires !Contains(x + pat[..|pat| - 1], pat)
    ensures Replace(x + pat + y, pat, rep) == x + rep + Replace(y, pat, rep)
    decreases |x|
  {
    var s := x + pat + y;
    if x == [] {
      assert s == pat + y && s[..|pat|] == pat && s[|pat|..] == y;
    } else {
      NoEarlyMatch(x, pat, y);
      ReplaceFirst(x[1..], pat, rep, y);
      ReplaceCons(x, pat, rep, y);
    }
  }

  /** One step of `ReplaceFirst`: a first character that does not start the pattern
      is kept in front of the rest's replacement. */
  lemma ReplaceCons(x: string, pat: string, rep: string, y: string)
    requires pat != [] && x != [] && (x + pat + y)[..|pat|] != pat
    requires Replace(x[1..] + pat + y, pat, rep) == x[1..] + rep + Replace(y, pat, rep)
    ensures Replace(x + pat + y, pat, rep) == x + rep + Replace(y, pat, rep)
  {
    var s := x + pat + y;
    var r := Replace(y, pat, rep);
    calc {
      Replace(s, pat, rep);
    == { ReplaceSkip(s, pat, rep); }
      [s[0]] + Replace(s[1..], pat, rep);
    == { assert s[0] == x[0] && s[1..] == x[1..] + pat + y; }
      [x[0]] + (x[1..] + rep + r);
    == { assert x == [x[0]] + x[1..]; }
      x + rep + r;
    }
  }

  /** A text that starts with `x`, before the pattern's first occurrence, does not
      start with the pattern, and neither does the rest of `x`. */
  lemma NoEarlyMatch(x: string, pat: string, y: string)
    requires pat != [] && x != []
    requires !Contains(x + pat[..|pat| - 1], pat)
    ensures (x + pat + y)[..|pat|] != pat
    ensures !Contains(x[1..] + pat[..|pat| - 1], pat)
  {
    var head := x + pat[..|pat| - 1];
    assert (x + pat + y)[..|pat|] == head[..|pat|];
    assert head[1..] == x[1..] + pat[..|pat| - 1];
  }

  /** Where the pattern does not start the text, the first character is kept. */
  lemma ReplaceSkip(s: string, pat: string, rep: string)
    requires pat != [] && |s| >= |pat| && s[..|pat|] != pat
    ensures Replace(s, pat, rep) == [s[0]] + Replace(s[1..], pat, rep)
  {
  }

  /** Replacing the pattern by itself changes nothing. */
  lemma {:induction false} ReplaceSelf(s: string, pat: string)
    requires pat != []
    ensures Replace(s, pat, pat) == s
    decreases |s|
  {
    if |s| >= |pat| {
      if s[..|pat|] == pat {
        ReplaceSelf(s[|pat|..], pat);
        assert s == s[..|pat|] + s[|pat|..];
      } else {
        ReplaceSelf(s[1..], pat);
        assert s == [s[0]] + s[1..];
      }
    }
  }

  // ---------------------------------------------------------------------------
  // strip

  /** The characters for which Python's `str.isspace()` holds, which `str.strip()`
      removes from both ends. */
  predicate IsSpace(c: char)
  {
    c == ' ' || c == '\t' || c == '\n' || c == '\r' || c == '\U{000B}' || c == '\U{000C}'
    || ('\U{001C}' <= c <= '\U{001F}') || c == '\U{0085}' || c == '\U{00A0}' || c == '\U{1680}'
    || ('\U{2000}' <= c <= '\U{200A}') || c == '\U{2028}' || c == '\U{2029}' || c == '\U{202F}'
    || c == '\U{205F}' || c == '\U{3000}'
  }

  /** `s.lstrip()`: the suffix left after dropping the leading whitespace. */
  function StripLeft(s: string): (r: string)
    ensures |r| <= |s|
  {
    if s != [] && IsSpace(s[0]) then StripLeft(s[1..]) else s
  }

  /** `s.rstrip()`: the prefix left after dropping the trailing whitespace. */
  function StripRight(s: string): (r: string)
    ensures |r| <= |s|
  {
    if s != [] && IsSpace(s[|s| - 1]) then StripRight(s[..|s| - 1]) else s
  }

  /** `s.strip()` */
  function Strip(s: string): string
  {
    StripRight(StripLeft(s))
  }

  lemma {:induction false} StripLeftSpec(s: string)
    ensures var r := StripLeft(s);
      && r == s[|s| - |r|..]
      && (forall k :: 0 <= k < |s| - |r| ==> IsSpace(s[k]))
      && (r == [] || !IsSpace(r[0]))
  {
    if s != [] && IsSpace(s[0]) {
      StripLeftSpec(s[1..]);
    }
  }

  lemma {:induction false} StripRightSpec(s: string)
    ensures var r := StripRight(s);
      && r == s[..|r|]
      && (forall k :: |r| <= k < |s| ==> IsSpace(s[k]))
      && (r == [] || !IsSpace(r[|r| - 1]))
  {
    if s != [] && IsSpace(s[|s| - 1]) {
      StripRightSpec(s[..|s| - 1]);
    }
  }

  /** A stripped string has no whitespace at either end, and is what is left of `s`
      after removing whitespace from both ends. */
  lemma StripSpec(s: string)
    ensures var r, lead := Strip(s), |s| - |StripLeft(s)|;
      && (r == [] || (!IsSpace(r[0]) && !IsSpace(r[|r| - 1])))
      && lead + |r| <= |s| && r == s[lead..lead + |r|]
      && (forall k :: 0 <= k < lead ==> IsSpace(s[k]))
      && (forall k :: lead + |r| <= k < |s| ==> IsSpace(s[k]))
  {
    var l := StripLeft(s);
    var r := StripRight(l);
    StripLeftSpec(s);
    StripRightSpec(l);
    var lead := |s| - |l|;
    assert r == s[lead..lead + |r|] by {
      assert l == s[lead..];
      assert l[..|r|] == s[lead..lead + |r|];
    }
    if r != [] {
      assert r[0] == l[0];
    }
    forall k | lead + |r| <= k < |s| ensures IsSpace(s[k]) {
      assert s[k] == l[k - lead];
    }
  }

  /** A word with no whitespace at its ends is left as it is, also after one space. */
  lemma StripWord(w: string)
    requires w != [] && !IsSpace(w[0]) && !IsSpace(w[|w| - 1])
    ensures Strip(w) == w && Strip([' '] + w) == w
  {
    assert ([' '] + w)[1..] == w;
  }

  /** Stripping twice is stripping once. */
  lemma StripIdempotent(s: string)
    ensures Strip(Strip(s)) == Strip(s)
  {
    var r := Strip(s);
    StripSpec(s);
    StripRightSpec(r);
    assert StripLeft(r) == r;
  }

  // ---------------------------------------------------------------------------
  // int()

  predicate IsDigit(c: char)
  {
    '0' <= c <= '9'
  }

  /** The value of a non-empty string of decimal digits, read most significant first. */
  function DigitsValue(s: string): (r: Option<nat>)
    ensures r.Some? <==> s != [] && forall k :: 0 <= k < |s| ==> IsDigit(s[k])
  {
    if s == [] || !IsDigit(s[|s| - 1]) then None
    else if |s| == 1 then Some((s[0] as int - '0' as int) as nat)
    else match DigitsValue(s[..|s| - 1])
      case None => None
      case Some(high) => Some(high * 10 + (s[|s| - 1] as int - '0' as int))
  }

  /** `int(s)` on an optionally signed decimal string; None stands for the ValueError
      Python raises on anything else. */
  function ParseInt(s: string): (r: Option<int>)
  {
    if s != [] && (s[0] == '-' || s[0] == '+') then
      match DigitsValue(s[1..])
      case None => None
      case Some(n) => Some(if s[0] == '-' then -(n as int) else n)
    else
      match DigitsValue(s)
      case None => None
      case Some(n) => Some(n)
  }

  /** The decimal digits of `n`, as `str(n)` writes them. */
  function Decimal(n: nat): (s: string)
    ensures s != [] && forall k :: 0 <= k < |s| ==> IsDigit(s[k])
  {
    var last := ['0' + (n % 10) as char];
    if n < 10 then last else Decimal(n / 10) + last
  }

  /** `int(str(n)) == n` */
  lemma {:induction false} ParseDecimal(n: nat)
    ensures DigitsValue(Decimal(n)) == Some(n)
    ensures ParseInt(Decimal(n)) == Some(n)
  {
    var s := Decimal(n);
    if n >= 10 {
      ParseDecimal(n / 10);
      assert s[..|s| - 1] == Decimal(n / 10);
    }
  }

  /** `int("-" + str(n)) == -n` */
  lemma NegativeDecimal(n: nat)
    ensures ParseInt("-" + Decimal(n)) == Some(-(n as int))
  {
    ParseDecimal(n);
    assert ("-" + Decimal(n))[1..] == Decimal(n);
  }
}

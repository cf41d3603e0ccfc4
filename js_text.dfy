/** The JavaScript string built-ins the core relies on, as functions over
    `seq<char>`: `toLowerCase`, `includes`, `split` with a one-character
    separator (and its inverse, `join`), `trim`, the regular expression
    `/\d+/`, `parseInt` of a digit string and the decimal text of a
    non-negative integer. */
module JsText {

  import opened Wrappers

  // ---------------------------------------------------------------------
  // toLowerCase and includes
  // ---------------------------------------------------------------------

  /** Lower-casing of one character, on the ASCII letters.  The only other
      characters whose lower case contains an ASCII letter are U+0130 (which
      lowers to "i" followed by U+0307) and U+212A (which lowers to "k").
      Neither matters for the four keywords and ".pdf" the core searches
      for: none of them ends in "i", so the "i" of U+0130, always followed
      by U+0307, can end no match, and none of them contains "k". */
  function LowerChar(c: char): (d: char)
    ensures 'A' <= c <= 'Z' ==> d as int == c as int + 32
    ensures !('A' <= c <= 'Z') ==> d == c
  {
    if 'A' <= c <= 'Z' then (c as int + 32) as char else c
  }

  /** `s.toLowerCase()` */
  function Lower(s: string): (r: string)
    ensures |r| == |s|
    ensures forall i :: 0 <= i < |s| ==> r[i] == LowerChar(s[i])
  {
    if s == [] then [] else [LowerChar(s[0])] + Lower(s[1..])
  }

  predicate StartsWith(s: string, prefix: string)
  {
    |prefix| <= |s| && s[..|prefix|] == prefix
  }

  /** `s.includes(t)` */
  predicate Includes(s: string, t: string)
    decreases |s|
  {
    StartsWith(s, t) || (|s| > 0 && Includes(s[1..], t))
  }

  /** A text does not include `t` when one of `t`'s characters does not
      occur in it. */
  lemma {:induction false} NotIncludedMissingChar(s: string, t: string, c: char)
    requires c in t && c !in s
    ensures !Includes(s, t)
    decreases |s|
  {
    if |t| <= |s| {
      assert forall k :: 0 <= k < |t| ==> s[..|t|][k] == s[k];
    }
    if |s| > 0 {
      NotIncludedMissingChar(s[1..], t, c);
    }
  }

  /** `t` occurs in `s` starting at position `i`. */
  predicate OccursAt(s: string, t: string, i: nat)
  {
    i + |t| <= |s| && s[i..i + |t|] == t
  }

  /** `includes` holds exactly when `t` occurs somewhere in `s`. */
  lemma {:induction false} IncludesIff(s: string, t: string)
    ensures Includes(s, t) <==> exists i: nat :: OccursAt(s, t, i)
    decreases |s|
  {
    if Includes(s, t) {
      if StartsWith(s, t) {
        assert OccursAt(s, t, 0);
      } else {
        IncludesIff(s[1..], t);
        var i: nat :| OccursAt(s[1..], t, i);
        assert s[1..][i..i + |t|] == s[i + 1..i + 1 + |t|];
        assert OccursAt(s, t, i + 1);
      }
    }
    if exists i: nat :: OccursAt(s, t, i) {
      var i: nat :| OccursAt(s, t, i);
      if i == 0 {
        assert s[..|t|] == s[0..|t|];
      } else {
        assert s[1..][i - 1..i - 1 + |t|] == s[i..i + |t|];
        assert OccursAt(s[1..], t, i - 1);
        IncludesIff(s[1..], t);
      }
    }
  }

  // ---------------------------------------------------------------------
  // split and join on a one-character separator
  // ---------------------------------------------------------------------

  /** Position of the first `c` in `s`, or `|s|` when there is none. */
  function IndexOf(s: string, c: char): (i: nat)
    ensures i <= |s|
  {
    if s == [] then 0
    else if s[0] == c then 0
    else 1 + IndexOf(s[1..], c)
  }

  /** `IndexOf` finds the first `c`, and finds none exactly when there is
      none.  (Kept apart from the function so that unfolding `Split` does
      not bring these quantified facts along.) */
  lemma {:induction false} IndexOfSpec(s: string, c: char)
    ensures IndexOf(s, c) < |s| <==> c in s
    ensures IndexOf(s, c) < |s| ==> s[IndexOf(s, c)] == c
    ensures forall k :: 0 <= k < IndexOf(s, c) ==> s[k] != c
    decreases |s|
  {
    if s != [] && s[0] != c {
      IndexOfSpec(s[1..], c);
      assert s == [s[0]] + s[1..];
    }
  }

  /** `s.split(sep)` for a one-character separator: the maximal pieces of
      `s` between separators, from left to right; always at least one. */
  function Split(s: string, sep: char): (parts: seq<string>)
    ensures parts != []
    decreases |s|
  {
    var i := IndexOf(s, sep);
    if i == |s| then [s] else [s[..i]] + Split(s[i + 1..], sep)
  }

  /** Text with a separator is the piece before its first separator, the
      separator, and the rest. */
  lemma SplitAtFirst(s: string, sep: char)
    requires sep in s
    ensures var i := IndexOf(s, sep);
      && i < |s| && s[i] == sep
      && Split(s, sep) == [s[..i]] + Split(s[i + 1..], sep)
  {
    IndexOfSpec(s, sep);
    SplitAtIndex(s, sep, IndexOf(s, sep));
  }

  /** No separator comes before the first one. */
  lemma IndexOfPrefix(s: string, c: char)
    ensures c !in s[..IndexOf(s, c)]
  {
    IndexOfSpec(s, c);
    var p := s[..IndexOf(s, c)];
    forall k | 0 <= k < |p| ensures p[k] != c {
      assert p[k] == s[k];
    }
  }

  /** A text holding the separator has it at `IndexOf`. */
  lemma IndexOfFound(s: string, c: char)
    requires c in s
    ensures IndexOf(s, c) < |s|
  {
    IndexOfSpec(s, c);
  }

  /** A separator-free prefix adds exactly one separator to the count. */
  lemma CountAfterPiece(a: string, sep: char, b: string)
    requires sep !in a
    ensures multiset(a + [sep] + b)[sep] == multiset(b)[sep] + 1
  {
    assert multiset(a + [sep] + b) == multiset(a) + multiset([sep]) + multiset(b);
    assert multiset(a)[sep] == 0;
  }

  /** There is one piece more than there are separators. */
  lemma {:induction false} SplitCount(s: string, sep: char)
    ensures |Split(s, sep)| == multiset(s)[sep] + 1
    decreases |s|
  {
    if sep !in s {
      assert multiset(s)[sep] == 0;
      SplitNone(s, sep);
    } else {
      var i := IndexOf(s, sep);
      SplitAtFirst(s, sep);
      var head, tail := s[..i], s[i + 1..];
      SplitCount(tail, sep);
      assert multiset(s)[sep] == multiset(tail)[sep] + 1 by {
        IndexOfPrefix(s, sep);
        assert s == head + [sep] + tail;
        CountAfterPiece(head, sep, tail);
      }
    }
  }

  /** No piece holds a separator. */
  lemma {:induction false} SplitSeparatorFree(s: string, sep: char)
    ensures forall k :: 0 <= k < |Split(s, sep)| ==> sep !in Split(s, sep)[k]
    decreases |s|
  {
    if sep in s {
      var i := IndexOf(s, sep);
      SplitAtFirst(s, sep);
      var tail := s[i + 1..];
      var parts, rest := Split(s, sep), Split(tail, sep);
      SplitSeparatorFree(tail, sep);
      forall k | 0 <= k < |parts| ensures sep !in parts[k] {
        if k > 0 {
          assert parts[k] == rest[k - 1];
        } else {
          IndexOfPrefix(s, sep);
        }
      }
    } else {
      SplitNone(s, sep);
    }
  }

  /** There is one piece more than there are separators, and no piece
      holds a separator. */
  lemma SplitPieces(s: string, sep: char)
    ensures |Split(s, sep)| == multiset(s)[sep] + 1
    ensures forall k :: 0 <= k < |Split(s, sep)| ==> sep !in Split(s, sep)[k]
  {
    SplitCount(s, sep);
    SplitSeparatorFree(s, sep);
  }

  /** `parts.join(sep)` */
  function Join(parts: seq<string>, sep: char): string
  {
    if parts == [] then ""
    else if |parts| == 1 then parts[0]
    else parts[0] + [sep] + Join(parts[1..], sep)
  }

  /** Joining a piece in front of a non-empty list puts a separator
      between them. */
  lemma JoinCons(head: string, rest: seq<string>, sep: char)
    requires rest != []
    ensures Join([head] + rest, sep) == head + [sep] + Join(rest, sep)
  {
    var parts := [head] + rest;
    assert parts[0] == head;
    assert parts[1..] == rest;
  }

  /** Splitting and joining again gives back the text. */
  lemma {:induction false} JoinSplit(s: string, sep: char)
    ensures Join(Split(s, sep), sep) == s
    decreases |s|
  {
    if sep !in s {
      SplitNone(s, sep);
    } else {
      var i := IndexOf(s, sep);
      SplitAtFirst(s, sep);
      var head, tail := s[..i], s[i + 1..];
      JoinSplit(tail, sep);
      JoinCons(head, Split(tail, sep), sep);
      assert s == head + [sep] + tail;
    }
  }

  /** Joining pieces that hold no separator and splitting again gives back
      the pieces. */
  lemma {:induction false} SplitJoin(parts: seq<string>, sep: char)
    requires parts != []
    requires forall k :: 0 <= k < |parts| ==> sep !in parts[k]
    ensures Split(Join(parts, sep), sep) == parts
    decreases |parts|
  {
    if |parts| > 1 {
      var head, rest := parts[0], Join(parts[1..], sep);
      var s := head + [sep] + rest;
      assert Join(parts, sep) == s;
      SplitJoin(parts[1..], sep);
      IndexOfAfter(head, sep, rest);
      assert s[..|head|] == head;
      assert s[|head| + 1..] == rest;
      assert Split(s, sep) == [head] + Split(rest, sep);
    } else {
      SplitNone(parts[0], sep);
    }
  }

  /** The first separator of `a + [sep] + b`, when `a` holds none, is the
      one right after `a`. */
  lemma IndexOfAfter(a: string, sep: char, b: string)
    requires sep !in a
    ensures IndexOf(a + [sep] + b, sep) == |a|
  {
    var s := a + [sep] + b;
    IndexOfSpec(s, sep);
    assert s[|a|] == sep;
    forall k | 0 <= k < |a| ensures s[k] != sep {
      assert s[k] == a[k];
    }
  }

  /** Text appended after a separator does not move the first one. */
  lemma IndexOfExtend(a: string, sep: char, b: string)
    requires sep in a
    ensures IndexOf(a + [sep] + b, sep) == IndexOf(a, sep)
  {
    var s := a + [sep] + b;
    var i := IndexOf(a, sep);
    IndexOfSpec(a, sep);
    IndexOfSpec(s, sep);
    assert s[i] == a[i];
    forall k | 0 <= k < i ensures s[k] != sep {
      assert s[k] == a[k];
    }
  }

  /** Text after a separator splits on its own: the pieces of `a + [sep] +
      b` are those of `a` followed by those of `b`. */
  lemma {:induction false} SplitConcat(a: string, sep: char, b: string)
    ensures Split(a + [sep] + b, sep) == Split(a, sep) + Split(b, sep)
    decreases |a|
  {
    if sep !in a {
      SplitAfterFree(a, sep, b);
      SplitNone(a, sep);
    } else {
      var i := IndexOf(a, sep);
      IndexOfFound(a, sep);
      var head, tail := a[..i], a[i + 1..];
      SplitAfterPiece(a, sep, b);
      SplitConcat(tail, sep, b);
      SplitAtFirst(a, sep);
      ConsAppend(Split(a + [sep] + b, sep), Split(a, sep), head, Split(tail, sep), Split(b, sep));
    }
  }

  /** Regrouping a list that starts with one known piece. */
  lemma ConsAppend(whole: seq<string>, front: seq<string>, head: string, left: seq<string>, right: seq<string>)
    requires whole == [head] + (left + right)
    requires front == [head] + left
    ensures whole == front + right
  {
  }

  /** A separator-free text followed by a separator is the first piece. */
  lemma SplitAfterFree(a: string, sep: char, b: string)
    requires sep !in a
    ensures Split(a + [sep] + b, sep) == [a] + Split(b, sep)
  {
    var s := a + [sep] + b;
    IndexOfAfter(a, sep, b);
    assert s[..|a|] == a;
    assert s[|a| + 1..] == b;
  }

  /** Text appended after a separator leaves the first piece of a text
      that already has a separator. */
  lemma SplitAfterPiece(a: string, sep: char, b: string)
    requires sep in a
    ensures var i := IndexOf(a, sep);
      i < |a| && Split(a + [sep] + b, sep) == [a[..i]] + Split(a[i + 1..] + [sep] + b, sep)
  {
    var s := a + [sep] + b;
    var i := IndexOf(a, sep);
    IndexOfFound(a, sep);
    IndexOfExtend(a, sep, b);
    SplitAtIndex(s, sep, i);
    SliceAround(a, sep, b, i);
  }

  /** A text splits at the position `IndexOf` finds, when it finds one. */
  lemma SplitAtIndex(s: string, sep: char, i: nat)
    requires i < |s| && IndexOf(s, sep) == i
    ensures Split(s, sep) == [s[..i]] + Split(s[i + 1..], sep)
  {
  }

  /** Slicing `a + [sep] + b` around a position `i` inside `a`. */
  lemma SliceAround(a: string, sep: char, b: string, i: nat)
    requires i < |a|
    ensures (a + [sep] + b)[..i] == a[..i]
    ensures (a + [sep] + b)[i + 1..] == a[i + 1..] + [sep] + b
  {
    assert a + [sep] + b == a + ([sep] + b);
    assert a[i + 1..] + ([sep] + b) == a[i + 1..] + [sep] + b;
  }

  /** Text without a separator is a single piece. */
  lemma SplitNone(s: string, sep: char)
    requires sep !in s
    ensures Split(s, sep) == [s]
  {
    IndexOfSpec(s, sep);
  }

  /** The first piece of a text is everything before its first separator. */
  lemma SplitFirst(a: string, sep: char, b: string)
    requires sep !in a
    requires b == [] || b[0] == sep
    ensures Split(a + b, sep)[0] == a
  {
    if b == [] {
      assert a + b == a;
      SplitNone(a, sep);
    } else {
      assert a + b == a + [sep] + b[1..];
      SplitConcat(a, sep, b[1..]);
      SplitNone(a, sep);
    }
  }

  // ---------------------------------------------------------------------
  // trim
  // ---------------------------------------------------------------------

  /** The characters `String.prototype.trim` removes: ECMAScript's
      WhiteSpace (tab, vertical tab, form feed, space, no-break space, the
      byte order mark and every space separator of Unicode category Zs)
      and LineTerminator (line feed, carriage return, line and paragraph
      separator). */
  predicate IsSpace(c: char)
  {
    || c == '\t' || c == '\n' || c == '\U{000B}' || c == '\U{000C}' || c == '\r'
    || c == ' ' || c == '\U{00A0}' || c == '\U{1680}'
    || ('\U{2000}' <= c <= '\U{200A}')
    || c == '\U{2028}' || c == '\U{2029}' || c == '\U{202F}' || c == '\U{205F}'
    || c == '\U{3000}' || c == '\U{FEFF}'
  }

  /** Number of leading characters of `s` that satisfy `p`. */
  function LeadingSpan(s: string, p: char -> bool): (n: nat)
    ensures n <= |s|
    ensures forall k :: 0 <= k < n ==> p(s[k])
    ensures n < |s| ==> !p(s[n])
  {
    if s == [] || !p(s[0]) then 0 else 1 + LeadingSpan(s[1..], p)
  }

  /** Number of trailing characters of `s` that satisfy `p`. */
  function TrailingSpan(s: string, p: char -> bool): (n: nat)
    ensures n <= |s|
    ensures forall k :: |s| - n <= k < |s| ==> p(s[k])
    ensures n < |s| ==> !p(s[|s| - 1 - n])
  {
    if s == [] || !p(s[|s| - 1]) then 0 else 1 + TrailingSpan(s[..|s| - 1], p)
  }

  /** `s.trim()`: `s` without its leading and trailing white space. */
  function Trim(s: string): (r: string)
    ensures r == [] || (!IsSpace(r[0]) && !IsSpace(r[|r| - 1]))
    ensures r == [] <==> forall k :: 0 <= k < |s| ==> IsSpace(s[k])
    ensures |r| <= |s|
  {
    var i := LeadingSpan(s, IsSpace);
    var t := s[i..];
    var n := TrailingSpan(t, IsSpace);
    assert i < |s| ==> n < |t|;
    t[..|t| - n]
  }

  /** `trim` removes exactly the white space around the text: cut the text
      into white space, a middle that neither starts nor ends with white
      space, and white space, and the middle is what `trim` returns. */
  lemma TrimAt(pre: string, mid: string, post: string)
    requires forall k :: 0 <= k < |pre| ==> IsSpace(pre[k])
    requires forall k :: 0 <= k < |post| ==> IsSpace(post[k])
    requires mid == [] || (!IsSpace(mid[0]) && !IsSpace(mid[|mid| - 1]))
    ensures Trim(pre + mid + post) == mid
  {
    var s := pre + mid + post;
    if mid != [] {
      assert s[|pre|] == mid[0];
      var i := LeadingSpan(s, IsSpace);
      assert i == |pre|;
      var t := s[i..];
      assert t == mid + post;
      assert t[|mid| - 1] == mid[|mid| - 1];
      var n := TrailingSpan(t, IsSpace);
      assert n == |post|;
      assert t[..|t| - n] == mid;
    }
  }

  /** Trimming twice is trimming once. */
  lemma TrimIdempotent(s: string)
    ensures Trim(Trim(s)) == Trim(s)
  {
    var r := Trim(s);
    if r != [] {
      assert LeadingSpan(r, IsSpace) == 0;
      assert TrailingSpan(r, IsSpace) == 0;
    }
  }

  /** `parts.map(s => s.trim())` */
  function TrimAll(parts: seq<string>): (r: seq<string>)
    ensures |r| == |parts|
    ensures forall k :: 0 <= k < |parts| ==> r[k] == Trim(parts[k])
  {
    if parts == [] then [] else [Trim(parts[0])] + TrimAll(parts[1..])
  }

  // ---------------------------------------------------------------------
  // /\d+/, parseInt and the decimal text of a number
  // ---------------------------------------------------------------------

  /** `\d` in a regular expression without the `u` flag: an ASCII digit. */
  predicate IsDigit(c: char)
  {
    '0' <= c <= '9'
  }

  predicate NotDigit(c: char)
  {
    !IsDigit(c)
  }

  predicate AllDigits(s: string)
  {
    forall k :: 0 <= k < |s| ==> IsDigit(s[k])
  }

  /** `s.match(/\d+/)?.[0]`: the first maximal run of digits in `s`. */
  function FirstDigitRun(s: string): (run: Option<string>)
    ensures run.None? <==> forall k :: 0 <= k < |s| ==> !IsDigit(s[k])
    ensures run.Some? ==> run.value != [] && AllDigits(run.value)
  {
    var i := LeadingSpan(s, NotDigit);
    if i == |s| then None
    else
      var n := LeadingSpan(s[i..], IsDigit);
      Some(s[i..i + n])
  }

  /** The first run of digits is found wherever the text is cut into a
      digit-free prefix, a non-empty run of digits, and a rest that does
      not continue the run. */
  lemma FirstDigitRunAt(pre: string, run: string, post: string)
    requires forall k :: 0 <= k < |pre| ==> !IsDigit(pre[k])
    requires run != [] && AllDigits(run)
    requires post == [] || !IsDigit(post[0])
    ensures FirstDigitRun(pre + run + post) == Some(run)
  {
    var s := pre + run + post;
    assert s[|pre|] == run[0];
    var i := LeadingSpan(s, NotDigit);
    assert i == |pre|;
    var t := s[i..];
    assert t == run + post;
    if post != [] {
      assert t[|run|] == post[0];
    }
    var n := LeadingSpan(t, IsDigit);
    assert n == |run|;
    assert s[i..i + n] == run;
  }

  /** Value of a decimal digit. */
  function DigitValue(c: char): (v: nat)
    requires IsDigit(c)
    ensures v < 10
  {
    c as int - '0' as int
  }

  /** The digit for a value below ten. */
  function DigitChar(v: nat): (c: char)
    requires v < 10
    ensures IsDigit(c) && DigitValue(c) == v
  {
    ('0' as int + v) as char
  }

  /** `parseInt(d)` for a non-empty string of digits (and 0 for the empty
      one): the number the digits spell in base ten. */
  function ParseDigits(d: string): nat
    requires AllDigits(d)
  {
    if d == [] then 0 else 10 * ParseDigits(d[..|d| - 1]) + DigitValue(d[|d| - 1])
  }

  /** `String(n)` for a non-negative integer: its decimal digits, most
      significant first, without leading zeros. */
  function DecimalString(n: nat): (s: string)
    ensures s != [] && AllDigits(s)
    ensures s[0] == '0' ==> s == "0"
  {
    if n < 10 then [DigitChar(n)]
    else
      var prefix := DecimalString(n / 10);
      prefix + [DigitChar(n % 10)]
  }

  /** `parseInt(String(n)) == n` */
  lemma {:induction false} ParseDecimal(n: nat)
    ensures ParseDigits(DecimalString(n)) == n
  {
    var s := DecimalString(n);
    if n >= 10 {
      ParseDecimal(n / 10);
      assert s[..|s| - 1] == DecimalString(n / 10);
    }
  }

  /** A run of digits with no leading zero spells a number at least ten to
      the power of its length minus one; in particular it is positive. */
  lemma {:induction false} ParseDigitsPositive(d: string)
    requires d != [] && AllDigits(d) && d[0] != '0'
    ensures ParseDigits(d) > 0
    ensures |d| > 1 ==> ParseDigits(d) >= 10
    decreases |d|
  {
    if |d| > 1 {
      ParseDigitsPositive(d[..|d| - 1]);
    }
  }

  /** `String(parseInt(d)) == d` for digits without a leading zero. */
  lemma {:induction false} DecimalParse(d: string)
    requires d != [] && AllDigits(d)
    requires d[0] == '0' ==> d == "0"
    ensures DecimalString(ParseDigits(d)) == d
    decreases |d|
  {
    var n := ParseDigits(d);
    if |d| > 1 {
      var prefix := d[..|d| - 1];
      ParseDigitsPositive(d);
      DecimalParse(prefix);
      assert n / 10 == ParseDigits(prefix);
      assert n % 10 == DigitValue(d[|d| - 1]);
    } else {
      assert d == [DigitChar(DigitValue(d[0]))];
    }
  }
}

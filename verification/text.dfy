/** The string builtins of the source language that the client relies on
    (explode, implode, substr_count, str_replace, the integer and boolean
    casts of a string) and the SQL LIKE pattern match, stated over
    `string = seq<char>`. */
module Text {
  import opened Wrappers

  /* ---------------------------------------------------------------------
     Character counting (substr_count with a one-character needle)
     --------------------------------------------------------------------- */

  function CountChar(s: string, c: char): nat
  {
    if |s| == 0 then 0
    else (if s[0] == c then 1 else 0) + CountChar(s[1..], c)
  }

  lemma {:induction false} CountCharAppend(a: string, b: string, c: char)
    ensures CountChar(a + b, c) == CountChar(a, c) + CountChar(b, c)
  {
    if |a| == 0 {
      assert a + b == b;
    } else {
      assert (a + b)[1..] == a[1..] + b;
      CountCharAppend(a[1..], b, c);
    }
  }

  lemma {:induction false} CountCharAbsent(s: string, c: char)
    requires c !in s
    ensures CountChar(s, c) == 0
  {
    if |s| > 0 {
      assert s[0] != c;
      assert forall i :: 0 <= i < |s[1..]| ==> s[1..][i] == s[i + 1];
      CountCharAbsent(s[1..], c);
    }
  }

  /* ---------------------------------------------------------------------
     explode / implode with a one-character delimiter
     --------------------------------------------------------------------- */

  /** explode(sep, s): the pieces between delimiters, always at least one. */
  function Split(s: string, sep: char): (r: seq<string>)
    ensures |r| >= 1
    decreases |s|
  {
    if |s| == 0 then [""]
    else
      var rest := Split(s[1..], sep);
      if s[0] == sep then [""] + rest
      else [[s[0]] + rest[0]] + rest[1..]
  }

  /** implode(sep, parts). */
  function Join(parts: seq<string>, sep: char): string
  {
    if |parts| == 0 then ""
    else if |parts| == 1 then parts[0]
    else parts[0] + [sep] + Join(parts[1..], sep)
  }

  /** Position of the last occurrence of `c`, if any. */
  function LastIndexOf(s: string, c: char): (r: Option<nat>)
    ensures r.Some? ==> r.value < |s| && s[r.value] == c
    ensures r.Some? ==> forall j :: r.value < j < |s| ==> s[j] != c
    ensures r.None? <==> c !in s
  {
    if |s| == 0 then None
    else if s[|s| - 1] == c then Some(|s| - 1)
    else
      var r := LastIndexOf(s[..|s| - 1], c);
      assert c in s ==> c in s[..|s| - 1] by {
        if c in s {
          var k :| 0 <= k < |s| && s[k] == c;
          assert s[..|s| - 1][k] == c;
        }
      }
      r
  }

  /** Everything before the last `c` ("" when there is none). */
  function BeforeLast(s: string, c: char): string
  {
    match LastIndexOf(s, c)
    case None => ""
    case Some(k) => s[..k]
  }

  /** Everything after the last `c` (the whole string when there is none). */
  function AfterLast(s: string, c: char): (r: string)
    ensures c !in r
  {
    match LastIndexOf(s, c)
    case None => s
    case Some(k) =>
      s[k + 1..]
  }

  lemma SplitPiecesHaveNoSeparator(s: string, sep: char)
    ensures forall i :: 0 <= i < |Split(s, sep)| ==> sep !in Split(s, sep)[i]
    decreases |s|
  {
    if |s| > 0 {
      SplitPiecesHaveNoSeparator(s[1..], sep);
    }
  }

  /** implode undoes explode. */
  lemma {:induction false} JoinSplit(s: string, sep: char)
    ensures Join(Split(s, sep), sep) == s
    decreases |s|
  {
    if |s| > 0 {
      var rest := Split(s[1..], sep);
      JoinSplit(s[1..], sep);
      if s[0] == sep {
        assert Split(s, sep) == [""] + rest;
        assert ([""] + rest)[1..] == rest;
      } else {
        var p := [[s[0]] + rest[0]] + rest[1..];
        if |rest| == 1 {
          assert Join(rest, sep) == rest[0];
        } else {
          assert rest == [rest[0]] + rest[1..];
          assert Join(rest, sep) == rest[0] + [sep] + Join(rest[1..], sep);
          assert p[1..] == rest[1..];
        }
      }
      assert s == [s[0]] + s[1..];
    }
  }

  /** explode on a string without the separator returns it whole. */
  lemma {:induction false} SplitWithoutSeparator(s: string, sep: char)
    requires sep !in s
    ensures Split(s, sep) == [s]
    decreases |s|
  {
    if |s| > 0 {
      assert sep !in s[1..];
      SplitWithoutSeparator(s[1..], sep);
      assert s == [s[0]] + s[1..];
    }
  }

  /** explode distributes over a separator. */
  lemma {:induction false} SplitAroundSeparator(a: string, b: string, sep: char)
    ensures Split(a + [sep] + b, sep) == Split(a, sep) + Split(b, sep)
    decreases |a|
  {
    var s := a + [sep] + b;
    if |a| == 0 {
      assert s == [sep] + b;
      assert s[1..] == b;
    } else {
      assert s[0] == a[0];
      assert s[1..] == a[1..] + [sep] + b;
      SplitAroundSeparator(a[1..], b, sep);
      var ra, sb := Split(a[1..], sep), Split(b, sep);
      if a[0] != sep {
        var rest := ra + sb;
        assert rest[0] == ra[0];
        assert rest[1..] == ra[1..] + sb;
        assert Split(s, sep) == [[a[0]] + ra[0]] + (ra[1..] + sb);
        assert Split(a, sep) == [[a[0]] + ra[0]] + ra[1..];
        ConsAppend([a[0]] + ra[0], ra[1..], sb);
      } else {
        assert Split(s, sep) == [""] + (ra + sb);
        assert Split(a, sep) == [""] + ra;
        ConsAppend("", ra, sb);
      }
    }
  }

  lemma ConsAppend<T>(x: T, t: seq<T>, u: seq<T>)
    ensures [x] + (t + u) == ([x] + t) + u
  {
  }

  /** A string with the separator is the text before its last occurrence,
      the separator, and the text after it. */
  lemma AroundLast(s: string, c: char)
    requires c in s
    ensures s == BeforeLast(s, c) + [c] + AfterLast(s, c)
  {
    var k := LastIndexOf(s, c).value;
    assert s == s[..k] + [c] + s[k + 1..];
  }

  /** The last piece of explode is the text after the last separator, and
      imploding the other pieces gives the text before it. */
  lemma SplitLastPiece(s: string, sep: char)
    ensures var parts := Split(s, sep);
      && parts[|parts| - 1] == AfterLast(s, sep)
      && Join(parts[..|parts| - 1], sep) == BeforeLast(s, sep)
  {
    if sep in s {
      var b, a := BeforeLast(s, sep), AfterLast(s, sep);
      AroundLast(s, sep);
      SplitAroundSeparator(b, a, sep);
      SplitWithoutSeparator(a, sep);
      var parts := Split(b, sep) + [a];
      assert Split(s, sep) == parts;
      assert parts[..|parts| - 1] == Split(b, sep);
      JoinSplit(b, sep);
    } else {
      SplitWithoutSeparator(s, sep);
    }
  }

  /* ---------------------------------------------------------------------
     str_replace(search, replace, subject)
     --------------------------------------------------------------------- */

  /** True when `search` occurs somewhere inside `s`. */
  predicate Occurs(search: string, s: string)
  {
    exists i :: 0 <= i <= |s| - |search| && search <= s[i..]
  }

  /** Replaces every non-overlapping occurrence, scanning left to right;
      an empty needle leaves the subject unchanged. */
  function StrReplace(search: string, rep: string, s: string): string
    decreases |s|
  {
    if |search| == 0 || |s| == 0 then s
    else if search <= s then rep + StrReplace(search, rep, s[|search|..])
    else [s[0]] + StrReplace(search, rep, s[1..])
  }

  lemma {:induction false} StrReplaceAbsent(search: string, rep: string, s: string)
    requires !Occurs(search, s)
    ensures StrReplace(search, rep, s) == s
    decreases |s|
  {
    if |search| > 0 && |s| > 0 {
      assert !(search <= s[0..]);
      assert s[0..] == s;
      assert !Occurs(search, s[1..]) by {
        forall i | 0 <= i <= |s[1..]| - |search|
          ensures !(search <= s[1..][i..])
        {
          assert s[1..][i..] == s[i + 1..];
        }
      }
      StrReplaceAbsent(search, rep, s[1..]);
    }
  }

  /** A path that is `search` followed by text free of further occurrences
      is rewritten by a plain prefix substitution. */
  lemma StrReplaceLeadingOccurrence(search: string, rep: string, rest: string)
    requires |search| > 0
    requires !Occurs(search, rest)
    ensures StrReplace(search, rep, search + rest) == rep + rest
  {
    var s := search + rest;
    assert search <= s;
    assert s[|search|..] == rest;
    if |s| > 0 {
      StrReplaceAbsent(search, rep, rest);
    }
  }

  /* ---------------------------------------------------------------------
     SQL LIKE with the wildcards % (any run) and _ (one character)
     --------------------------------------------------------------------- */

  predicate Like(s: string, pat: string)
    decreases |s| + |pat|
  {
    if |pat| == 0 then |s| == 0
    else if pat[0] == '%' then Like(s, pat[1..]) || (|s| > 0 && Like(s[1..], pat))
    else |s| > 0 && (pat[0] == '_' || pat[0] == s[0]) && Like(s[1..], pat[1..])
  }

  predicate NoWildcards(p: string)
  {
    '%' !in p && '_' !in p
  }

  lemma {:induction false} LikeAnything(r: string)
    ensures Like(r, "%")
    decreases |r|
  {
    assert "%"[1..] == "";
    if |r| > 0 {
      LikeAnything(r[1..]);
    }
  }

  /** Every string starting with `p` matches the pattern `p%`, wildcards in
      `p` included. */
  lemma {:induction false} LikePrefix(p: string, r: string)
    ensures Like(p + r, p + "%")
    decreases |p|
  {
    if |p| == 0 {
      assert p + r == r;
      assert p + "%" == "%";
      LikeAnything(r);
    } else {
      var s := p + r;
      var pat := p + "%";
      assert pat[0] == p[0];
      assert s[0] == p[0];
      assert s[1..] == p[1..] + r;
      assert pat[1..] == p[1..] + "%";
      LikePrefix(p[1..], r);
      if p[0] == '%' {
        // the leading % matches the leading %, then matches nothing
        assert Like(s[1..], pat) by {
          assert pat[1..] == p[1..] + "%";
          assert Like(s[1..], pat[1..]);
        }
      }
    }
  }

  /** For a pattern prefix without wildcards, `p%` matches exactly the
      strings that start with `p`. */
  lemma {:induction false} LikeLiteralPrefix(p: string, s: string)
    requires NoWildcards(p)
    ensures Like(s, p + "%") <==> p <= s
    decreases |p|
  {
    if p <= s {
      var r := s[|p|..];
      assert s == p + r;
      LikePrefix(p, r);
    }
    if |p| > 0 && Like(s, p + "%") {
      var pat := p + "%";
      assert pat[0] == p[0] && pat[1..] == p[1..] + "%";
      assert p[0] != '%' && p[0] != '_';
      assert |s| > 0 && s[0] == p[0] && Like(s[1..], p[1..] + "%");
      assert NoWildcards(p[1..]) by {
        assert forall i :: 0 <= i < |p[1..]| ==> p[1..][i] == p[i + 1];
      }
      LikeLiteralPrefix(p[1..], s[1..]);
    }
  }

  /* ---------------------------------------------------------------------
     Decimal text and the (int) / (bool) casts of a string
     --------------------------------------------------------------------- */

  /** The bounds of the source language's integers (64-bit). */
  const IntMax: int := 0x7fff_ffff_ffff_ffff
  const IntMin: int := -0x8000_0000_0000_0000

  predicate IsDigit(c: char) { '0' <= c <= '9' }

  predicate AllDigits(s: string) { forall i :: 0 <= i < |s| ==> IsDigit(s[i]) }

  function DigitChar(d: nat): (c: char)
    requires d < 10
    ensures IsDigit(c)
  {
    ('0' as int + d) as char
  }

  function DigitValue(c: char): nat
    requires IsDigit(c)
  {
    (c as int) - ('0' as int)
  }

  function NatToString(n: nat): (r: string)
    ensures |r| > 0 && AllDigits(r)
  {
    if n < 10 then [DigitChar(n)]
    else NatToString(n / 10) + [DigitChar(n % 10)]
  }

  /** The decimal text of an integer, as string interpolation prints it. */
  function IntToString(n: int): string
  {
    if n < 0 then "-" + NatToString(-n) else NatToString(n)
  }

  /** Value of a run of digits, most significant first. */
  function DigitsValue(s: string): nat
    requires AllDigits(s)
  {
    if |s| == 0 then 0
    else DigitsValue(s[..|s| - 1]) * 10 + DigitValue(s[|s| - 1])
  }

  /** The longest leading run of digits. */
  function DigitPrefix(s: string): (r: string)
    ensures r <= s && AllDigits(r)
  {
    if |s| > 0 && IsDigit(s[0]) then [s[0]] + DigitPrefix(s[1..]) else ""
  }

  predicate IsSpace(c: char)
  {
    c == ' ' || c == '\t' || c == '\n' || c == '\r' || c == 11 as char || c == 12 as char
  }

  function SkipSpaces(s: string): string
  {
    if |s| > 0 && IsSpace(s[0]) then SkipSpaces(s[1..]) else s
  }

  function Clamp(n: int): (r: int)
    ensures IntMin <= r <= IntMax
  {
    if n > IntMax then IntMax else if n < IntMin then IntMin else n
  }

  /** The (int) cast of a string: leading blanks, an optional sign, then the
      leading digits; anything else yields 0; out-of-range values saturate. */
  function ParseInt(s: string): int
  {
    var t := SkipSpaces(s);
    if |t| > 0 && t[0] == '-' then Clamp(-(DigitsValue(DigitPrefix(t[1..])) as int))
    else if |t| > 0 && t[0] == '+' then Clamp(DigitsValue(DigitPrefix(t[1..])))
    else Clamp(DigitsValue(DigitPrefix(t)))
  }

  /** The (bool) cast of a string: only "" and "0" are false. */
  predicate PhpTruthy(s: string)
  {
    s != "" && s != "0"
  }

  lemma {:induction false} DigitsValueOfNatToString(n: nat)
    ensures DigitsValue(NatToString(n)) == n
  {
    var s := NatToString(n);
    if n >= 10 {
      DigitsValueOfNatToString(n / 10);
      assert s[..|s| - 1] == NatToString(n / 10);
      assert s[|s| - 1] == DigitChar(n % 10);
    } else {
      assert s[..0] == "";
    }
  }

  lemma {:induction false} DigitPrefixOfDigits(s: string)
    requires AllDigits(s)
    ensures DigitPrefix(s) == s
    decreases |s|
  {
    if |s| > 0 {
      assert AllDigits(s[1..]) by {
        assert forall i :: 0 <= i < |s[1..]| ==> s[1..][i] == s[i + 1];
      }
      DigitPrefixOfDigits(s[1..]);
      assert s == [s[0]] + s[1..];
    }
  }

  /** Decimal text of a 64-bit integer casts back to the same integer. */
  lemma IntRoundTrip(n: int)
    requires IntMin <= n <= IntMax
    ensures ParseInt(IntToString(n)) == n
  {
    if n < 0 {
      var d := NatToString(-n);
      var s := "-" + d;
      assert SkipSpaces(s) == s;
      assert s[1..] == d;
      DigitPrefixOfDigits(d);
      DigitsValueOfNatToString(-n);
    } else {
      var d := NatToString(n);
      assert IsDigit(d[0]);
      assert SkipSpaces(d) == d;
      DigitPrefixOfDigits(d);
      DigitsValueOfNatToString(n);
    }
  }

  /* ---------------------------------------------------------------------
     Small helpers
     --------------------------------------------------------------------- */

  /** Drops trailing occurrences of `c`. */
  function TrimRight(s: string, c: char): (r: string)
    ensures r <= s
    ensures |r| > 0 ==> r[|r| - 1] != c
  {
    if |s| > 0 && s[|s| - 1] == c then TrimRight(s[..|s| - 1], c) else s
  }

  /** Position of the first occurrence of `c`, if any. */
  function IndexOf(s: string, c: char): (r: Option<nat>)
    ensures r.Some? ==> r.value < |s| && s[r.value] == c && c !in s[..r.value]
    ensures r.None? <==> c !in s
  {
    if |s| == 0 then None
    else if s[0] == c then Some(0)
    else match IndexOf(s[1..], c)
      case None => None
      case Some(k) =>
        assert s[..k + 1] == [s[0]] + s[1..][..k];
        Some(k + 1)
  }
}

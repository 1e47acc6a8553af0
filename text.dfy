/** The .NET string operations the plugin relies on, written out over
    `seq<char>`: ordinal search and replacement, trimming, ASCII upper-casing,
    integer formatting, joining and splitting. */
module Text {

  /** `String.StartsWith` with ordinal comparison. */
  predicate StartsWith(s: string, p: string)
  {
    |p| <= |s| && s[..|p|] == p
  }

  /** `String.EndsWith` with ordinal comparison. */
  predicate EndsWith(s: string, p: string)
  {
    |p| <= |s| && s[|s| - |p|..] == p
  }

  /** `String.Contains`: `p` occurs at some position of `s`. */
  predicate Contains(s: string, p: string)
    decreases |s|
  {
    StartsWith(s, p) || (0 < |s| && Contains(s[1..], p))
  }

  /** A one-character pattern occurs exactly when the character is in the text. */
  lemma {:induction false} ContainsChar(s: string, c: char)
    ensures Contains(s, [c]) <==> c in s
    decreases |s|
  {
    if s != [] {
      ContainsChar(s[1..], c);
      assert s == [s[0]] + s[1..];
    }
  }

  /** Every text contains itself. */
  lemma ContainsSelf(s: string)
    ensures Contains(s, s)
  {
    assert StartsWith(s, s);
  }

  /** `a + p + b` contains `p`. */
  lemma {:induction false} ContainsInfix(a: string, p: string, b: string)
    ensures Contains(a + p + b, p)
    decreases |a|
  {
    if a == [] {
      assert (a + p + b)[..|p|] == p;
    } else {
      assert (a + p + b)[1..] == a[1..] + p + b;
      ContainsInfix(a[1..], p, b);
    }
  }

  /** A text that ends with `p` contains `p`. */
  lemma EndsWithContains(s: string, p: string)
    requires EndsWith(s, p)
    ensures Contains(s, p)
  {
    assert s == s[..|s| - |p|] + p + [];
    ContainsInfix(s[..|s| - |p|], p, []);
  }

  /** A text that starts with a non-empty `p` contains `p`. */
  lemma StartsWithContains(s: string, p: string)
    requires StartsWith(s, p)
    ensures Contains(s, p)
  {
  }

  /** `String.Replace(pat, rep)`: ordinal, scanning left to right, replacing
      non-overlapping occurrences. .NET rejects an empty pattern. */
  function Replace(s: string, pat: string, rep: string): string
    requires pat != []
    decreases |s|
  {
    if |s| < |pat| then s
    else if s[..|pat|] == pat then rep + Replace(s[|pat|..], pat, rep)
    else [s[0]] + Replace(s[1..], pat, rep)
  }

  /** `String.Replace(char, char)`: every `a` becomes `b`. */
  function ReplaceChar(s: string, a: char, b: char): (r: string)
    ensures |r| == |s|
    ensures forall i :: 0 <= i < |s| ==> r[i] == if s[i] == a then b else s[i]
    decreases |s|
  {
    if s == [] then [] else [if s[0] == a then b else s[0]] + ReplaceChar(s[1..], a, b)
  }

  /** Character-wise substitution of `c` by `rep`. */
  function Subst(s: string, c: char, rep: string): string
  {
    if s == [] then [] else (if s[0] == c then rep else [s[0]]) + Subst(s[1..], c, rep)
  }

  /** Removing every occurrence of `c`; what `FastRemoveChar` is taken to do. */
  function RemoveChar(s: string, c: char): (r: string)
    ensures c !in r
    ensures forall x :: x in r <==> x in s && x != c
    ensures |r| <= |s|
  {
    if s == [] then [] else (if s[0] == c then [] else [s[0]]) + RemoveChar(s[1..], c)
  }

  /** Replacing a one-character pattern is character-wise substitution. */
  lemma {:induction false} ReplaceOneChar(s: string, c: char, rep: string)
    ensures Replace(s, [c], rep) == Subst(s, c, rep)
    decreases |s|
  {
    if s != [] {
      ReplaceOneChar(s[1..], c, rep);
      assert s[..1] == [s[0]];
    }
  }

  /** Replacing a character by nothing removes it. */
  lemma {:induction false} SubstEmptyIsRemove(s: string, c: char)
    ensures Subst(s, c, "") == RemoveChar(s, c)
    decreases |s|
  {
    if s != [] {
      SubstEmptyIsRemove(s[1..], c);
    }
  }

  /** `String.Replace(c, "")` is `RemoveChar`. */
  lemma ReplaceByNothing(s: string, c: char)
    ensures Replace(s, [c], "") == RemoveChar(s, c)
  {
    ReplaceOneChar(s, c, "");
    SubstEmptyIsRemove(s, c);
  }

  lemma {:induction false} SubstAppend(a: string, b: string, c: char, rep: string)
    ensures Subst(a + b, c, rep) == Subst(a, c, rep) + Subst(b, c, rep)
    decreases |a|
  {
    if a != [] {
      assert (a + b)[1..] == a[1..] + b;
      SubstAppend(a[1..], b, c, rep);
    } else {
      assert a + b == b;
    }
  }

  lemma {:induction false} SubstAbsent(s: string, c: char, rep: string)
    requires c !in s
    ensures Subst(s, c, rep) == s
    decreases |s|
  {
    if s != [] {
      SubstAbsent(s[1..], c, rep);
    }
  }

  lemma {:induction false} RemoveAbsent(s: string, c: char)
    requires c !in s
    ensures RemoveChar(s, c) == s
    decreases |s|
  {
    if s != [] {
      RemoveAbsent(s[1..], c);
    }
  }

  lemma {:induction false} RemoveCharAppend(a: string, b: string, c: char)
    ensures RemoveChar(a + b, c) == RemoveChar(a, c) + RemoveChar(b, c)
    decreases |a|
  {
    if a != [] {
      assert (a + b)[1..] == a[1..] + b;
      RemoveCharAppend(a[1..], b, c);
    } else {
      assert a + b == b;
    }
  }

  /** Replacing a pattern that does not occur changes nothing. */
  lemma {:induction false} ReplaceAbsent(s: string, pat: string, rep: string)
    requires pat != []
    requires !Contains(s, pat)
    ensures Replace(s, pat, rep) == s
    decreases |s|
  {
    if |s| >= |pat| {
      ReplaceAbsent(s[1..], pat, rep);
      assert s == [s[0]] + s[1..];
    }
  }

  /** The characters of the fixed table that `String.Trim()` removes in
      .NET Framework 2.0 to 3.5 (the Unity Mono profile the game runs on);
      .NET 4 and later use `Char.IsWhiteSpace` instead, so on those runtimes
      this is a chosen subset. The plugin lists the same characters as
      `StringTool.WhitespaceChars`. U+180E, the marker XUnity.AutoTranslator
      appends, is not among them. */
  const WhiteSpace: set<char> := {
    '\U{9}', '\U{A}', '\U{B}', '\U{C}', '\U{D}', '\U{20}', '\U{85}',
    '\U{A0}', '\U{1680}', '\U{2000}', '\U{2001}', '\U{2002}', '\U{2003}', '\U{2004}',
    '\U{2005}', '\U{2006}', '\U{2007}', '\U{2008}', '\U{2009}', '\U{200A}', '\U{200B}',
    '\U{2028}', '\U{2029}', '\U{3000}', '\U{FEFF}'
  }

  /** `TrimStart(ws)`. */
  function TrimStart(s: string, ws: set<char>): (r: string)
    ensures |r| <= |s|
    ensures forall i :: 0 <= i < |s| - |r| ==> s[i] in ws
    ensures r == [] || r[0] !in ws
    decreases |s|
  {
    if s != [] && s[0] in ws then TrimStart(s[1..], ws) else s
  }

  /** What `TrimStart` keeps is a tail of the text. */
  lemma {:induction false} TrimStartTail(s: string, ws: set<char>)
    ensures TrimStart(s, ws) == s[|s| - |TrimStart(s, ws)|..]
    decreases |s|
  {
    if s != [] && s[0] in ws {
      TrimStartTail(s[1..], ws);
    }
  }

  /** `TrimEnd(ws)`. */
  function TrimEnd(s: string, ws: set<char>): (r: string)
    ensures |r| <= |s|
    ensures forall i :: |r| <= i < |s| ==> s[i] in ws
    ensures r == [] || r[|r| - 1] !in ws
    decreases |s|
  {
    if s != [] && s[|s| - 1] in ws then TrimEnd(s[..|s| - 1], ws) else s
  }

  /** What `TrimEnd` keeps is a head of the text. */
  lemma {:induction false} TrimEndHead(s: string, ws: set<char>)
    ensures TrimEnd(s, ws) == s[..|TrimEnd(s, ws)|]
    decreases |s|
  {
    if s != [] && s[|s| - 1] in ws {
      TrimEndHead(s[..|s| - 1], ws);
    }
  }

  /** `Trim(ws)`: both ends. */
  function Trim(s: string, ws: set<char>): (r: string)
  {
    TrimEnd(TrimStart(s, ws), ws)
  }

  /** A trimmed text neither starts nor ends with a trimmed character. */
  lemma TrimShape(s: string, ws: set<char>)
    ensures var r := Trim(s, ws);
      r == [] || (r[0] !in ws && r[|r| - 1] !in ws)
  {
    var t := TrimStart(s, ws);
    var r := TrimEnd(t, ws);
    TrimEndHead(t, ws);
    assert r == t[..|r|];
  }

  lemma TrimStartNoop(s: string, ws: set<char>)
    requires s == [] || s[0] !in ws
    ensures TrimStart(s, ws) == s
  {
  }

  lemma TrimEndNoop(s: string, ws: set<char>)
    requires s == [] || s[|s| - 1] !in ws
    ensures TrimEnd(s, ws) == s
  {
  }

  /** Trimming twice is trimming once. */
  lemma TrimIdempotent(s: string, ws: set<char>)
    ensures Trim(Trim(s, ws), ws) == Trim(s, ws)
  {
    var r := Trim(s, ws);
    TrimShape(s, ws);
    TrimStartNoop(r, ws);
    TrimEndNoop(r, ws);
  }

  /** Trimming keeps a contiguous part of the text, so every character of
      the trimmed text comes from the text. */
  lemma TrimChars(s: string, ws: set<char>)
    ensures forall x :: x in Trim(s, ws) ==> x in s
  {
    var t := TrimStart(s, ws);
    var r := TrimEnd(t, ws);
    TrimStartTail(s, ws);
    TrimEndHead(t, ws);
    forall x | x in r ensures x in s {
      var i :| 0 <= i < |r| && r[i] == x;
      assert t[i] == x;
      assert s[|s| - |t| + i] == x;
    }
  }

  /** A text is trimmed to nothing exactly when all its characters are trimmed. */
  lemma TrimEmpty(s: string, ws: set<char>)
    ensures Trim(s, ws) == [] <==> forall i :: 0 <= i < |s| ==> s[i] in ws
  {
    var t := TrimStart(s, ws);
    TrimStartTail(s, ws);
    if t != [] {
      assert t[0] !in ws;
      assert s[|s| - |t|] == t[0];
    }
  }

  /** ASCII upper-casing of one character. */
  function UpperChar(c: char): char
  {
    if 'a' <= c <= 'z' then (c as int - 32) as char else c
  }

  /** `ToUpper`, for the ASCII letters. */
  function ToUpper(s: string): (r: string)
  {
    seq(|s|, i requires 0 <= i < |s| => UpperChar(s[i]))
  }

  /** Upper-casing keeps the length, is idempotent, never introduces or
      removes a trimmable character, and leaves every non-letter in place. */
  lemma ToUpperFacts(s: string)
    ensures |ToUpper(s)| == |s|
    ensures ToUpper(ToUpper(s)) == ToUpper(s)
    ensures forall i :: 0 <= i < |s| ==> (ToUpper(s)[i] in WhiteSpace <==> s[i] in WhiteSpace)
    ensures forall i :: 0 <= i < |s| && !('a' <= s[i] <= 'z') ==> ToUpper(s)[i] == s[i]
  {
  }

  /** Trimming with `WhiteSpace` commutes with upper-casing. */
  lemma {:induction false} TrimStartToUpper(s: string)
    ensures TrimStart(ToUpper(s), WhiteSpace) == ToUpper(TrimStart(s, WhiteSpace))
    decreases |s|
  {
    ToUpperFacts(s);
    if s != [] && s[0] in WhiteSpace {
      assert ToUpper(s)[1..] == ToUpper(s[1..]);
      TrimStartToUpper(s[1..]);
    }
  }

  lemma {:induction false} TrimEndToUpper(s: string)
    ensures TrimEnd(ToUpper(s), WhiteSpace) == ToUpper(TrimEnd(s, WhiteSpace))
    decreases |s|
  {
    ToUpperFacts(s);
    if s != [] && s[|s| - 1] in WhiteSpace {
      assert ToUpper(s)[..|s| - 1] == ToUpper(s[..|s| - 1]);
      TrimEndToUpper(s[..|s| - 1]);
    }
  }

  /** Removing a character that is not an ASCII letter commutes with
      upper-casing. */
  lemma {:induction false} RemoveCharToUpper(s: string, c: char)
    requires !('a' <= c <= 'z') && !('A' <= c <= 'Z')
    ensures RemoveChar(ToUpper(s), c) == ToUpper(RemoveChar(s, c))
    decreases |s|
  {
    if s != [] {
      var u := ToUpper(s);
      assert u[0] == UpperChar(s[0]) && u[1..] == ToUpper(s[1..]);
      assert u[0] == c <==> s[0] == c;
      RemoveCharToUpper(s[1..], c);
      var head: string := if s[0] == c then [] else [s[0]];
      assert ToUpper(head + RemoveChar(s[1..], c)) == ToUpper(head) + ToUpper(RemoveChar(s[1..], c));
    }
  }

  /** Concatenation regrouped. */
  lemma AppendAssoc<T>(a: seq<T>, b: seq<T>, c: seq<T>)
    ensures a + b + c == a + (b + c)
  {
  }

  /** The character of a decimal digit. */
  function DigitChar(d: nat): (c: char)
    requires d < 10
    ensures '0' <= c <= '9'
  {
    ('0' as int + d) as char
  }

  predicate IsAsciiDigit(c: char)
  {
    '0' <= c <= '9'
  }

  predicate AllDigits(s: string)
  {
    forall i :: 0 <= i < |s| ==> IsAsciiDigit(s[i])
  }

  /** `n.ToString(CultureInfo.InvariantCulture)` for a non-negative `n`. */
  function NatToString(n: nat): (r: string)
    ensures r != [] && AllDigits(r)
    decreases n
  {
    if n < 10 then [DigitChar(n)] else NatToString(n / 10) + [DigitChar(n % 10)]
  }

  /** The value of a string of decimal digits. */
  function DigitsValue(s: string): nat
    requires AllDigits(s)
  {
    if s == [] then 0 else 10 * DigitsValue(s[..|s| - 1]) + (s[|s| - 1] as int - '0' as int)
  }

  /** Reading the digits back gives the number. */
  lemma {:induction false} NatToStringValue(n: nat)
    ensures DigitsValue(NatToString(n)) == n
    decreases n
  {
    if n >= 10 {
      NatToStringValue(n / 10);
      var s := NatToString(n);
      assert s[..|s| - 1] == NatToString(n / 10);
    }
  }

  /** Distinct numbers print differently. */
  lemma NatToStringInjective(a: nat, b: nat)
    requires NatToString(a) == NatToString(b)
    ensures a == b
  {
    NatToStringValue(a);
    NatToStringValue(b);
  }

  /** `int.ToString(CultureInfo.InvariantCulture)`. */
  function IntToString(n: int): (r: string)
  {
    if n < 0 then "-" + NatToString(-n) else NatToString(n)
  }

  /** Distinct integers print differently. */
  lemma IntToStringInjective(a: int, b: int)
    requires IntToString(a) == IntToString(b)
    ensures a == b
  {
    var sa, sb := IntToString(a), IntToString(b);
    assert sa[0] == sb[0];
    if a < 0 && b < 0 {
      assert sa[1..] == NatToString(-a) && sb[1..] == NatToString(-b);
      NatToStringInjective(-a, -b);
    } else if a >= 0 && b >= 0 {
      NatToStringInjective(a, b);
    }
  }

  /** A printed integer is digits with an optional leading minus sign. */
  lemma IntToStringChars(n: int)
    ensures IntToString(n) != []
    ensures forall i :: 0 <= i < |IntToString(n)| ==>
      IsAsciiDigit(IntToString(n)[i]) || (i == 0 && IntToString(n)[i] == '-')
  {
  }

  /** `String.Join(sep, items)`, for any kind of element. */
  function Join<T>(items: seq<seq<T>>, sep: seq<T>): seq<T>
    decreases |items|
  {
    if |items| == 0 then []
    else if |items| == 1 then items[0]
    else Join(items[..|items| - 1], sep) + sep + items[|items| - 1]
  }

  /** Joining one more item appends the separator and the item. */
  lemma JoinSnoc<T>(items: seq<seq<T>>, x: seq<T>, sep: seq<T>)
    ensures Join(items + [x], sep) == if |items| == 0 then x else Join(items, sep) + sep + x
  {
    assert (items + [x])[..|items|] == items;
  }

  /** Joining four items. */
  lemma Join4<T>(a: seq<T>, b: seq<T>, c: seq<T>, d: seq<T>, sep: seq<T>)
    ensures Join([a, b, c, d], sep) == a + sep + b + sep + c + sep + d
  {
    assert [a, b][..1] == [a];
    assert Join([a, b], sep) == a + sep + b;
    assert [a, b, c][..2] == [a, b];
    assert Join([a, b, c], sep) == Join([a, b], sep) + sep + c;
    assert [a, b, c, d][..3] == [a, b, c];
    assert Join([a, b, c, d], sep) == Join([a, b, c], sep) + sep + d;
  }

  /** `String.Split(c)`: the pieces between the occurrences of `c`; there is
      always at least one piece. */
  function Split<T(==)>(s: seq<T>, c: T): (r: seq<seq<T>>)
    ensures |r| >= 1
    decreases |s|
  {
    if s == [] then [[]]
    else
      var rest := Split(s[1..], c);
      if s[0] == c then [[]] + rest else [[s[0]] + rest[0]] + rest[1..]
  }

  lemma {:induction false} SplitAbsent<T>(s: seq<T>, c: T)
    requires c !in s
    ensures Split(s, c) == [s]
    decreases |s|
  {
    if s != [] {
      SplitAbsent(s[1..], c);
      assert s == [s[0]] + s[1..];
    }
  }

  lemma {:induction false} SplitAround<T>(a: seq<T>, b: seq<T>, c: T)
    ensures Split(a + [c] + b, c) == Split(a, c) + Split(b, c)
    decreases |a|
  {
    if a == [] {
      assert a + [c] + b == [c] + b;
      assert ([c] + b)[1..] == b;
    } else {
      assert (a + [c] + b)[1..] == a[1..] + [c] + b;
      SplitAround(a[1..], b, c);
    }
  }

  /** Splitting a join at a separator that no item contains gives the items
      back. */
  lemma {:induction false} SplitJoin<T>(items: seq<seq<T>>, c: T)
    requires |items| >= 1
    requires forall i :: 0 <= i < |items| ==> c !in items[i]
    ensures Split(Join(items, [c]), c) == items
    decreases |items|
  {
    if |items| == 1 {
      SplitAbsent(items[0], c);
    } else {
      var init := items[..|items| - 1];
      SplitJoin(init, c);
      SplitAround(Join(init, [c]), items[|items| - 1], c);
      SplitAbsent(items[|items| - 1], c);
      assert items == init + [items[|items| - 1]];
    }
  }

  /** `String.IndexOf(c)`: the first position of `c`, or -1. */
  function IndexOfChar(s: string, c: char): (r: int)
    ensures -1 <= r < |s|
    ensures r == -1 <==> c !in s
    ensures r >= 0 ==> s[r] == c && c !in s[..r]
    decreases |s|
  {
    if s == [] then -1
    else if s[0] == c then 0
    else var k := IndexOfChar(s[1..], c); if k == -1 then -1 else k + 1
  }
}

/** `StringTool`: text normalisation, numeric sniffing, list joining and the
    `|`/`:` serialisation of dance sing-part lists with backslash escapes. */
module StringTool {
  import opened Wrappers
  import opened Text

  /** `WhitespaceChars`; the same characters `String.Trim()` removes. */
  const WhitespaceChars: set<char> := WhiteSpace

  // ---------------------------------------------------------------------
  // NormalizeText

  /** `NormalizeText`: CR, LF and TAB removed, the whitespace characters
      trimmed at both ends, then upper-cased. */
  function NormalizeText(text: string): string
  {
    ToUpper(Trim(Replace(Replace(Replace(text, "\r", ""), "\n", ""), "\t", ""), WhitespaceChars))
  }

  /** What the three `Replace` calls leave: the text without CR, LF and TAB. */
  function Stripped(text: string): (r: string)
    ensures '\r' !in r && '\n' !in r && '\t' !in r
    ensures forall x :: x in r <==> x in text && x != '\r' && x != '\n' && x != '\t'
  {
    RemoveChar(RemoveChar(RemoveChar(text, '\r'), '\n'), '\t')
  }

  lemma StrippedIsReplace(text: string)
    ensures Replace(Replace(Replace(text, "\r", ""), "\n", ""), "\t", "") == Stripped(text)
  {
    ReplaceByNothing(text, '\r');
    ReplaceByNothing(RemoveChar(text, '\r'), '\n');
    ReplaceByNothing(RemoveChar(RemoveChar(text, '\r'), '\n'), '\t');
  }

  /** The normalised text holds no CR, LF or TAB, does not start or end with
      a whitespace character, and has no lower-case ASCII letter. */
  lemma NormalizeTextShape(text: string)
    ensures var r := NormalizeText(text);
      '\r' !in r && '\n' !in r && '\t' !in r
      && (r == [] || (r[0] !in WhitespaceChars && r[|r| - 1] !in WhitespaceChars))
      && forall i :: 0 <= i < |r| ==> !('a' <= r[i] <= 'z')
  {
    StrippedIsReplace(text);
    var s := Stripped(text);
    var t := Trim(s, WhitespaceChars);
    TrimChars(s, WhitespaceChars);
    TrimShape(s, WhitespaceChars);
    ToUpperFacts(t);
    var r := ToUpper(t);
    forall x | x in r ensures x != '\r' && x != '\n' && x != '\t' {
      var i :| 0 <= i < |r| && r[i] == x;
      assert r[i] == UpperChar(t[i]) && t[i] in t;
    }
  }

  /** Normalising twice is normalising once. */
  lemma NormalizeTextIdempotent(text: string)
    ensures NormalizeText(NormalizeText(text)) == NormalizeText(text)
  {
    var r := NormalizeText(text);
    NormalizeTextShape(text);
    StrippedIsReplace(r);
    RemoveAbsent(r, '\r');
    RemoveAbsent(r, '\n');
    RemoveAbsent(r, '\t');
    assert Stripped(r) == r;
    TrimStartNoop(r, WhitespaceChars);
    TrimEndNoop(r, WhitespaceChars);
    StrippedIsReplace(text);
    ToUpperFacts(Trim(Stripped(text), WhitespaceChars));
  }

  // ---------------------------------------------------------------------
  // IsNumeric

  predicate IsSign(c: char)
  {
    c == '-' || c == '+'
  }

  /** Where the body of a short number starts: after a leading sign, if any. */
  function BodyStart(s: string): (k: nat)
    ensures k <= 1
  {
    if 0 < |s| && IsSign(s[0]) then 1 else 0
  }

  /** The short forms `IsNumeric` accepts on its own: an optional leading
      sign, then only digits and at most one `.`, with at least one digit. */
  predicate ShortNumber(s: string)
  {
    var k := BodyStart(s);
    (forall i :: k <= i < |s| ==> IsAsciiDigit(s[i]) || s[i] == '.')
    && (forall i, j :: k <= i < j < |s| && s[i] == '.' ==> s[j] != '.')
    && (exists i :: k <= i < |s| && IsAsciiDigit(s[i]))
  }

  /** What `IsNumeric` answers: false for the empty text, a digit test for
      one character, `ShortNumber` up to eight characters, and the verdict
      of `decimal.TryParse` beyond. */
  predicate Numeric(s: string, decimalParses: string -> bool)
  {
    if |s| == 0 then false
    else if |s| == 1 then IsAsciiDigit(s[0])
    else if |s| <= 8 then ShortNumber(s)
    else decimalParses(s)
  }

  /** `IsNumeric`, with the flag loop of the source; `decimalParses` stands
      for `decimal.TryParse` with any number style and the invariant culture. */
  method IsNumeric(text: string, decimalParses: string -> bool) returns (b: bool)
    ensures b == Numeric(text, decimalParses)
  {
    if |text| == 0 {
      return false;
    }
    if |text| == 1 {
      return '0' <= text[0] <= '9';
    }
    if |text| <= 8 {
      var hasDecimalPoint := false;
      var hasDigit := false;
      ghost var k := BodyStart(text);
      var i := 0;
      while i < |text|
        invariant 0 <= i <= |text|
        invariant i == 0 || k <= i
        invariant forall j :: k <= j < i ==> IsAsciiDigit(text[j]) || text[j] == '.'
        invariant hasDecimalPoint <==> exists j :: k <= j < i && text[j] == '.'
        invariant forall j, l :: k <= j < l < i && text[j] == '.' ==> text[l] != '.'
        invariant hasDigit <==> exists j :: k <= j < i && IsAsciiDigit(text[j])
      {
        var c := text[i];
        if i == 0 && (c == '-' || c == '+') {
          i := i + 1;
          continue;
        }
        if c == '.' {
          if hasDecimalPoint {
            return false;
          }
          hasDecimalPoint := true;
        } else if '0' <= c <= '9' {
          hasDigit := true;
        } else {
          return false;
        }
        i := i + 1;
      }
      return hasDigit;
    }
    return decimalParses(text);
  }

  /** Up to eight characters, the whole check: a lone sign, a lone `.` and a
      sign with a `.` are never numeric, and a numeric text holds a digit and
      no letter, `,` or sign after its first character. */
  lemma ShortNumberNeedsDigit(s: string, decimalParses: string -> bool)
    requires 1 <= |s| <= 8
    ensures s in ["-", "+", ".", "-.", "+."] ==> !Numeric(s, decimalParses)
    ensures Numeric(s, decimalParses) ==> exists i :: 0 <= i < |s| && IsAsciiDigit(s[i])
    ensures Numeric(s, decimalParses) ==>
      forall i :: 1 <= i < |s| ==> IsAsciiDigit(s[i]) || s[i] == '.'
  {
  }

  // ---------------------------------------------------------------------
  // IsNullOrWhiteSpace

  /** `IsNullOrWhiteSpace`; a null text is the empty one here. */
  predicate IsNullOrWhiteSpace(text: string)
  {
    text == [] || |Trim(text, WhiteSpace)| == 0
  }

  /** A text is null-or-white-space exactly when every character of it is a
      whitespace character. */
  lemma IsNullOrWhiteSpaceIff(text: string)
    ensures IsNullOrWhiteSpace(text) <==> forall i :: 0 <= i < |text| ==> text[i] in WhiteSpace
  {
    TrimEmpty(text, WhiteSpace);
  }

  // ---------------------------------------------------------------------
  // JoinStringList and JoinIntList

  /** `JoinStringList`: null (None) for an empty list, else the items
      separated by `|`. */
  function JoinStringList(list: seq<string>): (r: Option<string>)
  {
    if |list| == 0 then None else Some(Join(list, "|"))
  }

  /** A non-empty list whose items hold no `|` is recovered by splitting the
      joined text at `|`; an empty list gives null. */
  lemma JoinStringListSplit(list: seq<string>)
    requires forall i :: 0 <= i < |list| ==> '|' !in list[i]
    ensures JoinStringList(list).None? <==> |list| == 0
    ensures |list| > 0 ==> Split(JoinStringList(list).value, '|') == list
  {
    if |list| > 0 {
      SplitJoin(list, '|');
    }
  }

  /** Each integer in its invariant-culture form. */
  function Formatted(list: seq<int>): (r: seq<string>)
    ensures |r| == |list|
  {
    seq(|list|, i requires 0 <= i < |list| => IntToString(list[i]))
  }

  /** `JoinIntList`: null (None) for an empty list, else the numbers
      separated by `|`. */
  method JoinIntList(list: seq<int>) returns (r: Option<string>)
    ensures r == if |list| == 0 then None else Some(Join(Formatted(list), "|"))
  {
    if |list| == 0 {
      return None;
    }
    var arr: seq<string> := [];
    var i := 0;
    while i < |list|
      invariant 0 <= i <= |list|
      invariant arr == Formatted(list[..i])
    {
      arr := arr + [IntToString(list[i])];
      i := i + 1;
    }
    assert list[..i] == list;
    return Some(Join(arr, "|"));
  }

  /** Different non-empty integer lists join to different texts. */
  lemma JoinedIntsInjective(a: seq<int>, b: seq<int>)
    requires |a| > 0 && |b| > 0
    requires Join(Formatted(a), "|") == Join(Formatted(b), "|")
    ensures a == b
  {
    forall x: int ensures '|' !in IntToString(x) {
      IntToStringChars(x);
    }
    SplitJoin(Formatted(a), '|');
    SplitJoin(Formatted(b), '|');
    assert Formatted(a) == Formatted(b);
    forall i | 0 <= i < |a| ensures a[i] == b[i] {
      assert Formatted(a)[i] == Formatted(b)[i];
      IntToStringInjective(a[i], b[i]);
    }
  }

  // ---------------------------------------------------------------------
  // Escape

  /** `Escape`: "" for a null or empty text; otherwise backslash first, then
      `|`, `:`, CR and LF, each prefixed by a backslash (CR as `\r`, LF as
      `\n`). */
  function Escape(s: string): string
  {
    if s == [] then [] else ReplaceEach(s, EscapeRules)
  }

  /** The substitutions of `Escape`, in the order they are applied: each
      character is replaced by the text beside it. */
  const EscapeRules: seq<(char, string)> :=
    [('\\', "\\\\"), ('|', "\\|"), (':', "\\:"), ('\r', "\\r"), ('\n', "\\n")]

  /** `s.Replace(p, q)` for each rule `(p, q)`, one after the other. */
  function ReplaceEach(s: string, rules: seq<(char, string)>): string
    decreases |rules|
  {
    if rules == [] then s else ReplaceEach(Replace(s, [rules[0].0], rules[0].1), rules[1..])
  }

  /** The escape of one character. */
  function EscapeChar(c: char): string
  {
    if c == '\\' then "\\\\"
    else if c == '|' then "\\|"
    else if c == ':' then "\\:"
    else if c == '\r' then "\\r"
    else if c == '\n' then "\\n"
    else [c]
  }

  /** Escaping character by character. */
  function EscapeEach(s: string): string
  {
    if s == [] then [] else EscapeChar(s[0]) + EscapeEach(s[1..])
  }

  /** The five substitutions of `Escape`, in their order. */
  function Chain(s: string): string
  {
    Subst(Subst(Subst(Subst(Subst(s, '\\', "\\\\"), '|', "\\|"), ':', "\\:"), '\r', "\\r"), '\n', "\\n")
  }

  lemma ChainAppend(a: string, b: string)
    ensures Chain(a + b) == Chain(a) + Chain(b)
  {
    var s1a, s1b := Subst(a, '\\', "\\\\"), Subst(b, '\\', "\\\\");
    SubstAppend(a, b, '\\', "\\\\");
    var s2a, s2b := Subst(s1a, '|', "\\|"), Subst(s1b, '|', "\\|");
    SubstAppend(s1a, s1b, '|', "\\|");
    var s3a, s3b := Subst(s2a, ':', "\\:"), Subst(s2b, ':', "\\:");
    SubstAppend(s2a, s2b, ':', "\\:");
    var s4a, s4b := Subst(s3a, '\r', "\\r"), Subst(s3b, '\r', "\\r");
    SubstAppend(s3a, s3b, '\r', "\\r");
    SubstAppend(s4a, s4b, '\n', "\\n");
  }

  lemma SubstOne(x: char, c: char, rep: string)
    ensures Subst([x], c, rep) == if x == c then rep else [x]
  {
    assert [x][1..] == [];
  }

  lemma SubstTwo(x: char, y: char, c: char, rep: string)
    requires x != c && y != c
    ensures Subst([x, y], c, rep) == [x, y]
  {
    SubstAbsent([x, y], c, rep);
  }

  lemma ChainChar(x: char)
    ensures Chain([x]) == EscapeChar(x)
  {
    SubstOne(x, '\\', "\\\\");
    if x == '\\' {
      SubstTwo('\\', '\\', '|', "\\|");
      SubstTwo('\\', '\\', ':', "\\:");
      SubstTwo('\\', '\\', '\r', "\\r");
      SubstTwo('\\', '\\', '\n', "\\n");
    } else {
      SubstOne(x, '|', "\\|");
      if x == '|' {
        SubstTwo('\\', '|', ':', "\\:");
        SubstTwo('\\', '|', '\r', "\\r");
        SubstTwo('\\', '|', '\n', "\\n");
      } else {
        SubstOne(x, ':', "\\:");
        if x == ':' {
          SubstTwo('\\', ':', '\r', "\\r");
          SubstTwo('\\', ':', '\n', "\\n");
        } else {
          SubstOne(x, '\r', "\\r");
          if x == '\r' {
            SubstTwo('\\', 'r', '\n', "\\n");
          } else {
            SubstOne(x, '\n', "\\n");
          }
        }
      }
    }
  }

  lemma {:induction false} ChainIsEscapeEach(s: string)
    ensures Chain(s) == EscapeEach(s)
    decreases |s|
  {
    if s != [] {
      assert s == [s[0]] + s[1..];
      ChainAppend([s[0]], s[1..]);
      ChainChar(s[0]);
      ChainIsEscapeEach(s[1..]);
    }
  }

  /** `Escape` replaces each character by its escape. */
  lemma EscapeIsEscapeEach(s: string)
    ensures Escape(s) == EscapeEach(s)
  {
    if s != [] {
      var rs := EscapeRules;
      var s1 := Subst(s, '\\', "\\\\");
      var s2 := Subst(s1, '|', "\\|");
      var s3 := Subst(s2, ':', "\\:");
      var s4 := Subst(s3, '\r', "\\r");
      var s5 := Subst(s4, '\n', "\\n");
      ReplaceOneChar(s, '\\', "\\\\");
      ReplaceOneChar(s1, '|', "\\|");
      ReplaceOneChar(s2, ':', "\\:");
      ReplaceOneChar(s3, '\r', "\\r");
      ReplaceOneChar(s4, '\n', "\\n");
      assert ReplaceEach(s, rs) == ReplaceEach(s1, rs[1..]);
      assert ReplaceEach(s1, rs[1..]) == ReplaceEach(s2, rs[2..]) by { assert rs[1..][1..] == rs[2..]; }
      assert ReplaceEach(s2, rs[2..]) == ReplaceEach(s3, rs[3..]) by { assert rs[2..][1..] == rs[3..]; }
      assert ReplaceEach(s3, rs[3..]) == ReplaceEach(s4, rs[4..]) by { assert rs[3..][1..] == rs[4..]; }
      assert ReplaceEach(s4, rs[4..]) == ReplaceEach(s5, rs[5..]) by { assert rs[4..][1..] == rs[5..]; }
      assert rs[5..] == [];
      ChainIsEscapeEach(s);
    }
  }

  lemma {:induction false} EscapeEachAppend(a: string, b: string)
    ensures EscapeEach(a + b) == EscapeEach(a) + EscapeEach(b)
    decreases |a|
  {
    if a == [] {
      assert a + b == b;
    } else {
      assert (a + b)[1..] == a[1..] + b;
      EscapeEachAppend(a[1..], b);
    }
  }

  // ---------------------------------------------------------------------
  // Reading escaped text back

  /** A character read from escaped text, or an unescaped separator. */
  datatype Token = Char(c: char) | Sep(s: char)

  /** The character an escape `\c` stands for. */
  function Unescaped(c: char): char
  {
    if c == 'r' then '\r' else if c == 'n' then '\n' else c
  }

  /** Reading left to right: `\x` is the character `x` stands for, a bare
      `|` or `:` is a separator, anything else is itself. */
  function Lex(s: string): seq<Token>
    decreases |s|
  {
    if s == [] then []
    else if s[0] == '\\' && 2 <= |s| then [Char(Unescaped(s[1]))] + Lex(s[2..])
    else if s[0] == '|' || s[0] == ':' then [Sep(s[0])] + Lex(s[1..])
    else [Char(s[0])] + Lex(s[1..])
  }

  function Chars(s: string): (r: seq<Token>)
    ensures |r| == |s|
  {
    seq(|s|, i requires 0 <= i < |s| => Char(s[i]))
  }

  /** The text a left-to-right decoder reads back from escaped text. */
  function Unescape(s: string): string
  {
    var t := Lex(s);
    seq(|t|, i requires 0 <= i < |t| => if t[i].Char? then t[i].c else t[i].s)
  }

  lemma CharsAppend(a: string, b: string)
    ensures Chars(a + b) == Chars(a) + Chars(b)
  {
  }

  lemma CharsInjective(a: string, b: string)
    requires Chars(a) == Chars(b)
    ensures a == b
  {
    assert |a| == |b|;
    forall i | 0 <= i < |a| ensures a[i] == b[i] {
      assert Chars(a)[i] == Chars(b)[i];
    }
  }

  /** One escaped character reads back as that character. */
  lemma LexEscapeChar(x: char, rest: string)
    ensures Lex(EscapeChar(x) + rest) == [Char(x)] + Lex(rest)
  {
    if x == '\\' || x == '|' || x == ':' || x == '\r' || x == '\n' {
      assert (EscapeChar(x) + rest)[2..] == rest;
    } else {
      assert (EscapeChar(x) + rest)[1..] == rest;
    }
  }

  /** Escaped text reads back as the characters it escapes, whatever
      follows it. */
  lemma {:induction false} LexEscape(a: string, t: string)
    ensures Lex(EscapeEach(a) + t) == Chars(a) + Lex(t)
    decreases |a|
  {
    if a == [] {
      assert EscapeEach(a) + t == t;
    } else {
      var rest := EscapeEach(a[1..]) + t;
      calc {
        Lex(EscapeEach(a) + t);
        { assert EscapeEach(a) + t == EscapeChar(a[0]) + rest; }
        Lex(EscapeChar(a[0]) + rest);
        { LexEscapeChar(a[0], rest); }
        [Char(a[0])] + Lex(rest);
        { LexEscape(a[1..], t); }
        [Char(a[0])] + (Chars(a[1..]) + Lex(t));
        { assert Chars(a) == [Char(a[0])] + Chars(a[1..]); }
        Chars(a) + Lex(t);
      }
    }
  }

  /** Text with no backslash and no separator reads back as itself. */
  lemma {:induction false} LexPlain(a: string, t: string)
    requires forall i :: 0 <= i < |a| ==> a[i] != '\\' && a[i] != '|' && a[i] != ':'
    ensures Lex(a + t) == Chars(a) + Lex(t)
    decreases |a|
  {
    if a == [] {
      assert a + t == t;
    } else {
      assert (a + t)[1..] == a[1..] + t;
      LexPlain(a[1..], t);
      assert Chars(a) == [Char(a[0])] + Chars(a[1..]);
    }
  }

  lemma LexSep(c: char, t: string)
    requires c == '|' || c == ':'
    ensures Lex([c] + t) == [Sep(c)] + Lex(t)
  {
    assert ([c] + t)[1..] == t;
  }

  /** Decoding the escaped text gives the input back, so `Escape` is
      injective. */
  lemma UnescapeEscape(s: string)
    ensures Unescape(Escape(s)) == s
  {
    EscapeIsEscapeEach(s);
    LexEscape(s, []);
    assert EscapeEach(s) + [] == EscapeEach(s);
  }

  lemma EscapeInjective(a: string, b: string)
    requires Escape(a) == Escape(b)
    ensures a == b
  {
    UnescapeEscape(a);
    UnescapeEscape(b);
  }

  // ---------------------------------------------------------------------
  // SerializeSingPartList

  /** The fields of a `DanceSingPartData` that are serialised; a null text
      is the empty one. */
  datatype SingPart = SingPart(danceID: int, vocalJPName: string, vocalNameTerm: string, vocalFile: string)

  /** One item: `id:esc(vocalJPName):esc(vocalNameTerm):esc(vocalFile)`. */
  function Group(p: SingPart): string
  {
    Join([IntToString(p.danceID), Escape(p.vocalJPName), Escape(p.vocalNameTerm),
          Escape(p.vocalFile)], ":")
  }

  function Groups(list: seq<SingPart>): (r: seq<string>)
    ensures |r| == |list|
  {
    if list == [] then [] else Groups(list[..|list| - 1]) + [Group(list[|list| - 1])]
  }

  /** The serialised form: null (None) for an empty list, else the items'
      groups separated by `|`. */
  function Serialized(list: seq<SingPart>): Option<string>
  {
    if |list| == 0 then None else Some(Join(Groups(list), "|"))
  }

  lemma AppendPieces(x: string, id: string, ea: string, eb: string, ec: string)
    ensures x + id + ":" + ea + ":" + eb + ":" + ec == x + (id + ":" + ea + ":" + eb + ":" + ec)
  {
  }

  /** Regrouping four fields and their three separators around a tail. */
  lemma NestPieces<T>(w: seq<T>, x: seq<T>, y: seq<T>, z: seq<T>, t: seq<T>, s: seq<T>)
    ensures w + s + x + s + y + s + z + t == w + (s + (x + (s + (y + (s + (z + t))))))
  {
  }

  lemma GroupPieces(p: SingPart, id: string, ea: string, eb: string, ec: string)
    requires id == IntToString(p.danceID) && ea == Escape(p.vocalJPName)
    requires eb == Escape(p.vocalNameTerm) && ec == Escape(p.vocalFile)
    ensures Group(p) == id + ":" + ea + ":" + eb + ":" + ec
  {
    Join4(id, ea, eb, ec, ":");
  }

  /** One more item: its group follows the groups before it, after a `|`
      unless it is the first. */
  lemma SerializedSnoc(list: seq<SingPart>, i: int)
    requires 0 <= i < |list|
    ensures Join(Groups(list[..i + 1]), "|")
      == Join(Groups(list[..i]), "|") + (if i > 0 then "|" else "") + Group(list[i])
  {
    assert list[..i + 1][..i] == list[..i];
    JoinSnoc(Groups(list[..i]), Group(list[i]), "|");
  }

  /** `SerializeSingPartList`, appending to a builder as the source does. */
  method SerializeSingPartList(list: seq<SingPart>) returns (r: Option<string>)
    ensures r == Serialized(list)
  {
    if |list| == 0 {
      return None;
    }
    var sb: string := [];
    var i := 0;
    while i < |list|
      invariant 0 <= i <= |list|
      invariant sb == Join(Groups(list[..i]), "|")
    {
      var item := list[i];
      var id, ea, eb, ec := IntToString(item.danceID), Escape(item.vocalJPName),
        Escape(item.vocalNameTerm), Escape(item.vocalFile);
      ghost var before := sb;
      ghost var sep: string := if i > 0 then "|" else "";
      if i > 0 {
        sb := sb + "|";
      }
      sb := sb + id;
      sb := sb + ":";
      sb := sb + ea;
      sb := sb + ":";
      sb := sb + eb;
      sb := sb + ":";
      sb := sb + ec;
      AppendPieces(before + sep, id, ea, eb, ec);
      GroupPieces(item, id, ea, eb, ec);
      SerializedSnoc(list, i);
      i := i + 1;
    }
    assert list[..i] == list;
    return Some(sb);
  }

  /** The tokens one group reads back as. */
  function GroupTokens(p: SingPart): seq<Token>
  {
    Join([Chars(IntToString(p.danceID)), Chars(p.vocalJPName), Chars(p.vocalNameTerm),
          Chars(p.vocalFile)], [Sep(':')])
  }

  function AllGroupTokens(list: seq<SingPart>): (r: seq<seq<Token>>)
    ensures |r| == |list|
  {
    if list == [] then [] else AllGroupTokens(list[..|list| - 1]) + [GroupTokens(list[|list| - 1])]
  }

  lemma {:induction false} AllGroupTokensAt(list: seq<SingPart>, i: int)
    requires 0 <= i < |list|
    ensures AllGroupTokens(list)[i] == GroupTokens(list[i])
    decreases |list|
  {
    if i < |list| - 1 {
      AllGroupTokensAt(list[..|list| - 1], i);
    }
  }

  lemma LexGroup(p: SingPart, t: string)
    ensures Lex(Group(p) + t) == GroupTokens(p) + Lex(t)
  {
    var id := IntToString(p.danceID);
    var a, b, c := p.vocalJPName, p.vocalNameTerm, p.vocalFile;
    EscapeIsEscapeEach(a);
    EscapeIsEscapeEach(b);
    EscapeIsEscapeEach(c);
    var ea, eb, ec := EscapeEach(a), EscapeEach(b), EscapeEach(c);
    var r3 := ":" + (ec + t);
    var r2 := ":" + (eb + r3);
    var r1 := ":" + (ea + r2);
    var s := [Sep(':')];
    IntToStringChars(p.danceID);
    calc {
      Lex(Group(p) + t);
      { GroupPieces(p, id, ea, eb, ec);
        NestPieces(id, ea, eb, ec, t, ":"); }
      Lex(id + r1);
      { LexPlain(id, r1); }
      Chars(id) + Lex(r1);
      { LexSep(':', ea + r2); }
      Chars(id) + (s + Lex(ea + r2));
      { LexEscape(a, r2); }
      Chars(id) + (s + (Chars(a) + Lex(r2)));
      { LexSep(':', eb + r3); }
      Chars(id) + (s + (Chars(a) + (s + Lex(eb + r3))));
      { LexEscape(b, r3); }
      Chars(id) + (s + (Chars(a) + (s + (Chars(b) + Lex(r3)))));
      { LexSep(':', ec + t); }
      Chars(id) + (s + (Chars(a) + (s + (Chars(b) + (s + Lex(ec + t))))));
      { LexEscape(c, t); }
      Chars(id) + (s + (Chars(a) + (s + (Chars(b) + (s + (Chars(c) + Lex(t)))))));
      { NestPieces(Chars(id), Chars(a), Chars(b), Chars(c), Lex(t), s); }
      Chars(id) + s + Chars(a) + s + Chars(b) + s + Chars(c) + Lex(t);
      { Join4(Chars(id), Chars(a), Chars(b), Chars(c), s); }
      GroupTokens(p) + Lex(t);
    }
  }

  lemma {:induction false} LexJoinGroups(list: seq<SingPart>, t: string)
    requires |list| > 0
    ensures Lex(Join(Groups(list), "|") + t) == Join(AllGroupTokens(list), [Sep('|')]) + Lex(t)
    decreases |list|
  {
    var n := |list|;
    if n == 1 {
      LexGroup(list[0], t);
    } else {
      var init, last := list[..n - 1], list[n - 1];
      var gs, ts := Groups(init), AllGroupTokens(init);
      assert Groups(list) == gs + [Group(last)];
      assert AllGroupTokens(list) == ts + [GroupTokens(last)];
      var rest := "|" + (Group(last) + t);
      JoinSnoc(gs, Group(last), "|");
      JoinSnocText(Join(gs, "|"), Group(last), t);
      LexJoinGroups(init, rest);
      LexSepGroup(last, t);
      JoinSnoc(ts, GroupTokens(last), [Sep('|')]);
      TokensAssoc(Join(ts, [Sep('|')]), GroupTokens(last), Lex(t));
    }
  }

  lemma JoinSnocText(j: string, g: string, t: string)
    ensures j + "|" + g + t == j + ("|" + (g + t))
  {
  }

  lemma LexSepGroup(p: SingPart, t: string)
    ensures Lex("|" + (Group(p) + t)) == [Sep('|')] + (GroupTokens(p) + Lex(t))
  {
    LexSep('|', Group(p) + t);
    LexGroup(p, t);
  }

  lemma TokensAssoc(j: seq<Token>, g: seq<Token>, l: seq<Token>)
    ensures j + ([Sep('|')] + (g + l)) == j + [Sep('|')] + g + l
  {
  }

  lemma GroupFields(p: SingPart)
    ensures Split(GroupTokens(p), Sep(':')) ==
      [Chars(IntToString(p.danceID)), Chars(p.vocalJPName), Chars(p.vocalNameTerm), Chars(p.vocalFile)]
    ensures Sep('|') !in GroupTokens(p)
  {
    var j := [Chars(IntToString(p.danceID)), Chars(p.vocalJPName), Chars(p.vocalNameTerm),
              Chars(p.vocalFile)];
    forall i | 0 <= i < 4 ensures Sep(':') !in j[i] && Sep('|') !in j[i] {
    }
    SplitJoin(j, Sep(':'));
    Join4(j[0], j[1], j[2], j[3], [Sep(':')]);
  }

  /** A group's tokens determine the sing part. */
  lemma GroupTokensInjective(p: SingPart, q: SingPart)
    requires GroupTokens(p) == GroupTokens(q)
    ensures p == q
  {
    GroupFields(p);
    GroupFields(q);
    var f := Split(GroupTokens(p), Sep(':'));
    assert f[0] == Chars(IntToString(p.danceID)) && f[0] == Chars(IntToString(q.danceID));
    CharsInjective(IntToString(p.danceID), IntToString(q.danceID));
    IntToStringInjective(p.danceID, q.danceID);
    CharsInjective(p.vocalJPName, q.vocalJPName);
    CharsInjective(p.vocalNameTerm, q.vocalNameTerm);
    CharsInjective(p.vocalFile, q.vocalFile);
  }

  /** The serialised text of a non-empty list reads back as the groups'
      tokens split at the `|` separators. */
  lemma SerializedTokens(list: seq<SingPart>)
    requires |list| > 0
    ensures Split(Lex(Serialized(list).value), Sep('|')) == AllGroupTokens(list)
  {
    var ts := AllGroupTokens(list);
    forall i | 0 <= i < |list| ensures Sep('|') !in ts[i] {
      AllGroupTokensAt(list, i);
      GroupFields(list[i]);
    }
    calc {
      Split(Lex(Serialized(list).value), Sep('|'));
      { assert Serialized(list).value + [] == Serialized(list).value; }
      Split(Lex(Join(Groups(list), "|") + []), Sep('|'));
      { LexJoinGroups(list, []); }
      Split(Join(ts, [Sep('|')]) + Lex([]), Sep('|'));
      { assert Join(ts, [Sep('|')]) + Lex([]) == Join(ts, [Sep('|')]); }
      Split(Join(ts, [Sep('|')]), Sep('|'));
      { SplitJoin(ts, Sep('|')); }
      ts;
    }
  }

  /** Different sing-part lists serialise differently, and only the empty
      list serialises to null: the escapes keep every `|` and `:` of the data
      apart from the separators. */
  lemma SerializedInjective(a: seq<SingPart>, b: seq<SingPart>)
    requires Serialized(a) == Serialized(b)
    ensures a == b
  {
    if |a| > 0 && |b| > 0 {
      SerializedTokens(a);
      SerializedTokens(b);
      var ta, tb := AllGroupTokens(a), AllGroupTokens(b);
      assert ta == tb;
      forall i | 0 <= i < |a| ensures a[i] == b[i] {
        assert ta[i] == tb[i];
        AllGroupTokensAt(a, i);
        AllGroupTokensAt(b, i);
        GroupTokensInjective(a[i], b[i]);
      }
    }
  }
}

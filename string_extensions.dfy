/** `StringExtensions.Template`: expands `$digits` and `${name}` placeholders
    through a caller-supplied function, with `\$` standing for a literal `$`.
    The expander is a left-to-right state machine over the template. */
module StringExtensions {
  import opened Text

  /** The machine's state: the output built so far (`sb`), the placeholder
      name collected so far (`sbTemplate`), and the two flags. */
  datatype State = State(out: string, pending: string, inside: bool, braced: bool)

  const Start := State("", "", false, false)

  /** The state after an ordinary character `c`: a `$digits` placeholder is
      closed by any non-digit, then `c` goes to the name if still inside a
      placeholder, else to the output. */
  function Plain(st: State, c: char, f: string -> string): State
  {
    var st1 :=
      if st.inside && !st.braced && !IsAsciiDigit(c)
      then State(st.out + f(st.pending), "", false, st.braced)
      else st;
    if st1.inside then st1.(pending := st1.pending + [c]) else st1.(out := st1.out + [c])
  }

  /** What the machine produces from state `st` on the rest `s` of the
      template. Nothing is flushed at the end. */
  function Expand(s: string, f: string -> string, st: State): string
    decreases |s|
  {
    if s == [] then st.out
    else if s[0] == '\\' && 2 <= |s| && s[1] == '$' then
      Expand(s[2..], f, st.(out := st.out + "$"))
    else if s[0] == '$' then
      Expand(s[1..], f, st.(inside := true))
    else if s[0] == '{' && st.inside then
      Expand(s[1..], f, st.(braced := true))
    else if s[0] == '}' && st.inside && |st.pending| > 0 then
      Expand(s[1..], f, State(st.out + f(st.pending), "", false, false))
    else
      Expand(s[1..], f, Plain(st, s[0], f))
  }

  /** `template.Template(templateFunc)`, the source's loop over the
      template with its two builders and flags. */
  method Template(template: string, templateFunc: string -> string) returns (r: string)
    ensures r == Expand(template, templateFunc, Start)
  {
    var sb: string := "";
    var sbTemplate: string := "";
    var insideTemplate := false;
    var bracedTemplate := false;
    var i := 0;
    while i < |template|
      invariant 0 <= i <= |template|
      invariant Expand(template[i..], templateFunc, State(sb, sbTemplate, insideTemplate, bracedTemplate))
        == Expand(template, templateFunc, Start)
    {
      var c := template[i];
      ghost var rest := template[i..];
      assert rest[0] == c;
      if c == '\\' && i + 1 < |template| && template[i + 1] == '$' {
        assert rest[1] == '$' && rest[2..] == template[i + 2..];
        sb := sb + "$";
        i := i + 2;
      } else if c == '$' {
        assert rest[1..] == template[i + 1..];
        insideTemplate := true;
        i := i + 1;
      } else if c == '{' && insideTemplate {
        assert rest[1..] == template[i + 1..];
        bracedTemplate := true;
        i := i + 1;
      } else if c == '}' && insideTemplate && |sbTemplate| > 0 {
        assert rest[1..] == template[i + 1..];
        sb := sb + templateFunc(sbTemplate);
        sbTemplate := "";
        insideTemplate := false;
        bracedTemplate := false;
        i := i + 1;
      } else {
        assert rest[1..] == template[i + 1..];
        if insideTemplate && !bracedTemplate && !IsAsciiDigit(c) {
          sb := sb + templateFunc(sbTemplate);
          sbTemplate := "";
          insideTemplate := false;
        }
        if insideTemplate {
          sbTemplate := sbTemplate + [c];
        } else {
          sb := sb + [c];
        }
        i := i + 1;
      }
    }
    return sb;
  }

  /** Outside a placeholder, text with no `$` is copied unchanged and in
      order, whatever follows it, provided it does not end in a backslash
      that could escape a following `$`. */
  lemma {:induction false} ExpandPlainText(a: string, b: string, f: string -> string, st: State)
    requires !st.inside && '$' !in a
    requires a != [] && b != [] ==> a[|a| - 1] != '\\'
    ensures Expand(a + b, f, st) == Expand(b, f, st.(out := st.out + a))
    decreases |a|
  {
    if a == [] {
      assert a + b == b;
      assert st.(out := st.out + a) == st;
    } else {
      var s := a + b;
      assert s[0] == a[0] && s[1..] == a[1..] + b;
      assert !(s[0] == '\\' && 2 <= |s| && s[1] == '$') by {
        if |a| >= 2 {
          assert s[1] == a[1];
        } else if b != [] {
          assert s[0] == a[|a| - 1];
        }
      }
      var st1 := Plain(st, a[0], f);
      assert st1 == st.(out := st.out + [a[0]]);
      ExpandPlainText(a[1..], b, f, st1);
      assert st.out + [a[0]] + a[1..] == st.out + a;
    }
  }

  /** A template with no `$` is returned unchanged. */
  lemma TemplateWithoutDollar(t: string, f: string -> string)
    requires '$' !in t
    ensures Expand(t, f, Start) == t
  {
    ExpandPlainText(t, [], f, Start);
    assert t + [] == t;
  }

  /** When every `$` of the template is escaped by the backslash before it,
      the template function is never consulted: the result is the template
      with each `\$` read as `$`, scanning left to right. */
  lemma {:induction false} EscapedDollars(s: string, f: string -> string, out: string)
    requires forall k :: 0 <= k < |s| && s[k] == '$' ==> 0 < k && s[k - 1] == '\\'
    ensures Expand(s, f, State(out, "", false, false)) == out + Replace(s, "\\$", "$")
    decreases |s|
  {
    var st := State(out, "", false, false);
    if s == [] {
    } else if s[0] == '\\' && 2 <= |s| && s[1] == '$' {
      assert s[..2] == "\\$";
      forall k | 0 <= k < |s[2..]| && s[2..][k] == '$' ensures 0 < k && s[2..][k - 1] == '\\' {
        assert s[k + 2] == '$';
      }
      EscapedDollars(s[2..], f, out + "$");
    } else {
      assert s[0] != '$';
      assert |s| >= 2 ==> s[..2][0] == s[0] && s[..2][1] == s[1];
      forall k | 0 <= k < |s[1..]| && s[1..][k] == '$' ensures 0 < k && s[1..][k - 1] == '\\' {
        assert s[k + 1] == '$';
      }
      assert Plain(st, s[0], f) == State(out + [s[0]], "", false, false);
      EscapedDollars(s[1..], f, out + [s[0]]);
    }
  }

  /** Inside `${`, a name free of `$`, `{` and `}` is collected and the
      closing `}` replaces the placeholder by the function's value. */
  lemma {:induction false} BracedName(name: string, rest: string, f: string -> string,
                                      out: string, pending: string)
    requires pending + name != []
    requires forall k :: 0 <= k < |name| ==> name[k] != '$' && name[k] != '{' && name[k] != '}'
    ensures Expand(name + "}" + rest, f, State(out, pending, true, true))
      == Expand(rest, f, State(out + f(pending + name), "", false, false))
    decreases |name|
  {
    var s := name + "}" + rest;
    if name == [] {
      assert s[0] == '}' && s[1..] == rest;
      assert pending + name == pending;
    } else {
      assert s[0] == name[0] && s[1..] == name[1..] + "}" + rest;
      assert s[1] != '$' by {
        if |name| >= 2 {
          assert s[1] == name[1];
        } else {
          assert s[1] == '}';
        }
      }
      var st := State(out, pending, true, true);
      assert Plain(st, name[0], f) == State(out, pending + [name[0]], true, true);
      BracedName(name[1..], rest, f, out, pending + [name[0]]);
      assert pending + [name[0]] + name[1..] == pending + name;
    }
  }

  /** `${name}` with a non-empty name free of `$`, `{` and `}` is replaced by
      `templateFunc(name)`. */
  lemma BracedPlaceholder(name: string, rest: string, f: string -> string, out: string)
    requires name != []
    requires forall k :: 0 <= k < |name| ==> name[k] != '$' && name[k] != '{' && name[k] != '}'
    ensures Expand("${" + name + "}" + rest, f, State(out, "", false, false))
      == Expand(rest, f, State(out + f(name), "", false, false))
  {
    var s := "${" + name + "}" + rest;
    assert s[0] == '$' && s[1..] == "{" + name + "}" + rest;
    assert s[1..][0] == '{' && s[1..][1..] == name + "}" + rest;
    BracedName(name, rest, f, out, "");
    assert "" + name == name;
  }

  /** Inside `$`, digits are collected and the first ordinary non-digit
      closes the placeholder; that character is then copied. */
  lemma {:induction false} NumberedDigits(digits: string, c: char, rest: string,
                                          f: string -> string, out: string, pending: string)
    requires AllDigits(digits)
    requires c != '$' && c != '{' && c != '}' && c != '\\' && !IsAsciiDigit(c)
    ensures Expand(digits + [c] + rest, f, State(out, pending, true, false))
      == Expand(rest, f, State(out + f(pending + digits) + [c], "", false, false))
    decreases |digits|
  {
    var s := digits + [c] + rest;
    if digits == [] {
      assert s[0] == c && s[1..] == rest;
      assert pending + digits == pending;
    } else {
      assert s[0] == digits[0] && s[1..] == digits[1..] + [c] + rest;
      assert IsAsciiDigit(digits[0]);
      var st := State(out, pending, true, false);
      assert Plain(st, digits[0], f) == State(out, pending + [digits[0]], true, false);
      NumberedDigits(digits[1..], c, rest, f, out, pending + [digits[0]]);
      assert pending + [digits[0]] + digits[1..] == pending + digits;
    }
  }

  /** `$` followed by digits and an ordinary character (not `$`, `{`, `}` or
      `\`) becomes `templateFunc(digits)` followed by that character. */
  lemma NumberedPlaceholder(digits: string, c: char, rest: string, f: string -> string, out: string)
    requires AllDigits(digits)
    requires c != '$' && c != '{' && c != '}' && c != '\\' && !IsAsciiDigit(c)
    ensures Expand("$" + digits + [c] + rest, f, State(out, "", false, false))
      == Expand(rest, f, State(out + f(digits) + [c], "", false, false))
  {
    var s := "$" + digits + [c] + rest;
    assert s[0] == '$' && s[1..] == digits + [c] + rest;
    NumberedDigits(digits, c, rest, f, out, "");
    assert "" + digits == digits;
  }

  /** A `$digits` placeholder still open at the end of the template adds
      nothing. */
  lemma {:induction false} OpenNumberedAtEnd(digits: string, f: string -> string, st: State)
    requires st.inside && !st.braced && AllDigits(digits)
    ensures Expand(digits, f, st) == st.out
    decreases |digits|
  {
    if digits != [] {
      assert IsAsciiDigit(digits[0]);
      OpenNumberedAtEnd(digits[1..], f, Plain(st, digits[0], f));
    }
  }

  /** A `${` placeholder that is never closed adds nothing either. */
  lemma {:induction false} OpenBracedAtEnd(name: string, f: string -> string, st: State)
    requires st.inside && st.braced
    requires forall k :: 0 <= k < |name| ==> name[k] != '$' && name[k] != '}'
    ensures Expand(name, f, st) == st.out
    decreases |name|
  {
    if name != [] {
      if name[0] == '{' {
        OpenBracedAtEnd(name[1..], f, st.(braced := true));
      } else {
        OpenBracedAtEnd(name[1..], f, Plain(st, name[0], f));
      }
    }
  }
}

/** The part of Rust's format-string language that the generated `Display`
    goes through: `{{` and `}}` print a brace, `{}` prints the next
    positional argument, every argument must be used, and any other use of
    a brace is rejected when the program is compiled. */
module FormatArgs {
  import opened Wrappers

  function Prepend(s: string, r: Option<string>): Option<string>
  {
    match r
    case Some(t) => Some(s + t)
    case None => None
  }

  /** The text `format_args!(fmt, args...)` produces, or `None` when the
      compiler rejects the format string against the arguments. */
  function Render(fmt: string, args: seq<string>): Option<string>
    decreases |fmt|
  {
    if fmt == [] then
      if args == [] then Some("") else None
    else if fmt[0] == '{' then
      if 2 <= |fmt| && fmt[1] == '{' then Prepend("{", Render(fmt[2..], args))
      else if 2 <= |fmt| && fmt[1] == '}' then
        if args == [] then None else Prepend(args[0], Render(fmt[2..], args[1..]))
      else None
    else if fmt[0] == '}' then
      if 2 <= |fmt| && fmt[1] == '}' then Prepend("}", Render(fmt[2..], args)) else None
    else
      Prepend([fmt[0]], Render(fmt[1..], args))
  }

  predicate NoBraces(s: string)
  {
    forall i | 0 <= i < |s| :: s[i] != '{' && s[i] != '}'
  }

  /** Doubles a brace, so that it prints literally; other characters are kept. */
  function EscapeChar(c: char): string
  {
    if c == '{' then "{{" else if c == '}' then "}}" else [c]
  }

  /** Doubles every brace, so that the text prints literally. */
  function Escape(s: string): string
  {
    if s == [] then [] else EscapeChar(s[0]) + Escape(s[1..])
  }

  lemma PrependConcat(a: string, b: string, r: Option<string>)
    ensures Prepend(a, Prepend(b, r)) == Prepend(a + b, r)
  {
    if r.Some? { assert a + (b + r.value) == (a + b) + r.value; }
  }

  /** An escaped character is printed as itself, whatever follows it. */
  lemma RenderEscapedChar(c: char, tail: string, args: seq<string>)
    ensures Render(EscapeChar(c) + tail, args) == Prepend([c], Render(tail, args))
  {
    var fmt := EscapeChar(c) + tail;
    if c == '{' || c == '}' {
      assert fmt[0] == c && fmt[1] == c && fmt[2..] == tail;
    } else {
      assert fmt[0] == c && fmt[1..] == tail;
    }
  }

  /** An escaped text is printed verbatim, whatever follows it. */
  lemma {:induction false} RenderEscaped(s: string, rest: string, args: seq<string>)
    ensures Render(Escape(s) + rest, args) == Prepend(s, Render(rest, args))
    decreases |s|
  {
    if s == [] {
      assert Escape(s) + rest == rest;
      assert Prepend([], Render(rest, args)) == Render(rest, args) by {
        if Render(rest, args).Some? { assert [] + Render(rest, args).value == Render(rest, args).value; }
      }
    } else {
      var tail := Escape(s[1..]) + rest;
      assert Escape(s) + rest == EscapeChar(s[0]) + tail;
      RenderEscapedChar(s[0], tail, args);
      RenderEscaped(s[1..], rest, args);
      PrependConcat([s[0]], s[1..], Render(rest, args));
      assert [s[0]] + s[1..] == s;
    }
  }

  lemma {:induction false} NoBracesEscapeIdentity(s: string)
    requires NoBraces(s)
    ensures Escape(s) == s
  {
    if s != [] {
      assert NoBraces(s[1..]) by {
        forall i | 0 <= i < |s[1..]| ensures s[1..][i] != '{' && s[1..][i] != '}' {
          assert s[1..][i] == s[i + 1];
        }
      }
      NoBracesEscapeIdentity(s[1..]);
      assert [s[0]] + s[1..] == s;
    }
  }

  /** A text without braces is printed verbatim in front of the rest. */
  lemma RenderPlain(s: string, rest: string, args: seq<string>)
    requires NoBraces(s)
    ensures Render(s + rest, args) == Prepend(s, Render(rest, args))
  {
    NoBracesEscapeIdentity(s);
    RenderEscaped(s, rest, args);
  }

  /** The suffix `" ({})"` prints its one argument in parentheses. */
  lemma RenderParenthesisedSuffix(b: string)
    ensures Render(" ({})", [b]) == Some(" (" + b + ")")
  {
    assert " ({})"[1..] == "({})";
    assert "({})"[1..] == "{})";
    assert "{})"[2..] == ")";
    assert ")"[1..] == "";
    assert [b][1..] == [];
    assert Render("", []) == Some("");
    assert [")"[0]] == ")" && ")" + "" == ")";
    assert Render(")", []) == Some(")");
    assert Render("{})", [b]) == Some(b + ")");
    assert Render("({})", [b]) == Some("(" + (b + ")"));
    assert " " + ("(" + (b + ")")) == " (" + b + ")";
  }

  /** The template `"{} ({})"` prints its first argument, a space, and the
      second argument in parentheses, whatever the arguments contain. */
  lemma RenderParenthesised(a: string, b: string)
    ensures Render("{} ({})", [a, b]) == Some(a + " (" + b + ")")
  {
    var fmt := "{} ({})";
    assert fmt[2..] == " ({})";
    assert [a, b][1..] == [b];
    RenderParenthesisedSuffix(b);
    assert a + (" (" + b + ")") == a + " (" + b + ")";
  }
}

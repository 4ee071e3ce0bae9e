/** `escape_markdown_v2`: prefixes every MarkdownV2-reserved character with a backslash. */
module Escaping {
  import opened Wrappers
  import opened Strings

  /** The characters of the raw string literal the character class is built from.
      The literal writes most punctuation as `\x`, and `re.escape` keeps every character
      of it literal, so the backslash itself ends up in the class. */
  const ReservedSource: string := "_\\*\\[\\]\\(\\)~`>#\\+\\-=|\\.!{}"

  /** The 19 distinct reserved characters. */
  const ReservedChars: set<char> :=
    {'_', '\\', '*', '[', ']', '(', ')', '~', '`', '>', '#', '+', '-', '=', '|', '.', '!', '{', '}'}

  predicate IsReserved(c: char) {
    c in ReservedChars
  }

  /** The class built from the raw literal is exactly the reserved characters. */
  lemma ReservedSet()
    ensures forall c :: c in ReservedSource <==> IsReserved(c)
    ensures '\\' in ReservedSource
  {
    LiteralInClass();
    ClassInLiteral();
  }

  lemma LiteralInClass()
    ensures forall i :: 0 <= i < |ReservedSource| ==> IsReserved(ReservedSource[i])
  {
  }

  lemma ClassInLiteral()
    ensures forall c :: IsReserved(c) ==> c in ReservedSource
  {
  }

  /** What the substitution writes for one character. */
  function EscapeChar(c: char): (r: string)
    ensures 1 <= |r| && r[|r| - 1] == c
    ensures |r| == 2 <==> IsReserved(c)
    ensures |r| == 2 ==> r[0] == '\\'
  {
    if IsReserved(c) then ['\\', c] else [c]
  }

  function CountReserved(t: string): (n: nat)
    ensures n <= |t|
    decreases |t|
  {
    if |t| == 0 then 0 else (if IsReserved(t[0]) then 1 else 0) + CountReserved(t[1..])
  }

  function Escape(t: string): (r: string)
    ensures |r| == |t| + CountReserved(t)
    ensures |r| <= 2 * |t|
    ensures |t| == 0 ==> r == ""
    decreases |t|
  {
    if |t| == 0 then "" else EscapeChar(t[0]) + Escape(t[1..])
  }

  /** Escaping distributes over concatenation: it is a per-character homomorphism. */
  lemma {:induction false} EscapeAppend(a: string, b: string)
    ensures Escape(a + b) == Escape(a) + Escape(b)
    decreases |a|
  {
    if |a| == 0 {
      assert a + b == b;
    } else {
      assert (a + b)[0] == a[0];
      assert (a + b)[1..] == a[1..] + b;
      EscapeAppend(a[1..], b);
    }
  }

  /** Escaping a single character is exactly its substitution. */
  lemma EscapeSingle(c: char)
    ensures Escape([c]) == EscapeChar(c)
  {
    assert [c][1..] == [];
  }

  /** Reading one substitution back gives the character. */
  lemma EscapeCharUnescapes(c: char)
    ensures Unescape(EscapeChar(c)) == Some([c])
  {
    var r := EscapeChar(c);
    if IsReserved(c) {
      assert r == ['\\', c];
      assert r[2..] == [];
      assert Unescape(r[2..]) == Some("");
      assert |r| >= 2 && r[0] == '\\' && IsReserved(r[1]);
      assert Unescape(r) == Some([r[1]] + "");
      assert [r[1]] + "" == [c];
    } else {
      assert IsReserved('\\');
      assert r == [c];
      assert r[1..] == [];
      assert Unescape(r[1..]) == Some("");
      assert c != '\\' && !IsReserved(r[0]);
      assert Unescape(r) == Some([r[0]] + "");
      assert [r[0]] + "" == [c];
    }
  }

  /** Reading an escaped string back: a backslash must be followed by a reserved character,
      and a reserved character may not appear unescaped. */
  function Unescape(s: string): Option<string>
    decreases |s|
  {
    if |s| == 0 then Some("")
    else if s[0] == '\\' then
      if |s| >= 2 && IsReserved(s[1]) then
        match Unescape(s[2..])
        case Some(rest) => Some([s[1]] + rest)
        case None => None
      else None
    else if IsReserved(s[0]) then None
    else
      match Unescape(s[1..])
      case Some(rest) => Some([s[0]] + rest)
      case None => None
  }

  /** Nothing is lost by escaping: the original text can always be read back. */
  lemma {:induction false} UnescapeEscape(t: string)
    ensures Unescape(Escape(t)) == Some(t)
    decreases |t|
  {
    if |t| == 0 {
    } else {
      var s := Escape(t);
      UnescapeEscape(t[1..]);
      if IsReserved(t[0]) {
        assert s == ['\\', t[0]] + Escape(t[1..]);
        assert s[2..] == Escape(t[1..]);
      } else {
        assert s == [t[0]] + Escape(t[1..]);
        assert s[1..] == Escape(t[1..]);
      }
      assert [t[0]] + t[1..] == t;
    }
  }

  /** Every string that reads back is the escape of what it reads back to. */
  lemma {:induction false} EscapeUnescape(s: string, t: string)
    requires Unescape(s) == Some(t)
    ensures Escape(t) == s
    decreases |s|
  {
    if |s| == 0 {
    } else if s[0] == '\\' {
      var rest := Unescape(s[2..]).value;
      EscapeUnescape(s[2..], rest);
      assert t == [s[1]] + rest;
      assert t[1..] == rest;
      assert s == [s[0], s[1]] + s[2..];
    } else {
      var rest := Unescape(s[1..]).value;
      EscapeUnescape(s[1..], rest);
      assert t == [s[0]] + rest;
      assert t[1..] == rest;
      assert s == [s[0]] + s[1..];
    }
  }

  /** Every reserved character of `t` yields two reserved characters of `Escape(t)`. */
  lemma {:induction false} CountReservedEscape(t: string)
    ensures CountReserved(Escape(t)) == 2 * CountReserved(t)
    decreases |t|
  {
    if |t| == 0 {
    } else {
      CountReservedEscape(t[1..]);
      CountReservedAppend(EscapeChar(t[0]), Escape(t[1..]));
      if IsReserved(t[0]) {
        assert EscapeChar(t[0])[1..] == [t[0]];
      }
    }
  }

  lemma {:induction false} CountReservedAppend(a: string, b: string)
    ensures CountReserved(a + b) == CountReserved(a) + CountReserved(b)
    decreases |a|
  {
    if |a| == 0 {
      assert a + b == b;
    } else {
      assert (a + b)[0] == a[0];
      assert (a + b)[1..] == a[1..] + b;
      CountReservedAppend(a[1..], b);
    }
  }

  /** Escaping changes a text exactly when it holds a reserved character; in particular
      escaping twice differs from escaping once whenever there was anything to escape,
      because the inserted backslash is itself reserved. */
  lemma EscapeIdempotentIff(t: string)
    ensures Escape(t) == t <==> CountReserved(t) == 0
    ensures Escape(Escape(t)) == Escape(t) <==> CountReserved(t) == 0
  {
    CountReservedEscape(t);
    if CountReserved(t) == 0 {
      NoReservedUnchanged(t);
    }
  }

  lemma {:induction false} NoReservedUnchanged(t: string)
    requires CountReserved(t) == 0
    ensures Escape(t) == t
    decreases |t|
  {
    if |t| != 0 {
      NoReservedUnchanged(t[1..]);
      assert [t[0]] + t[1..] == t;
    }
  }

  lemma EscapeExamples()
    ensures Escape("a_b") == "a\\_b"
    ensures Escape("\\") == "\\\\"
    ensures Escape(Escape("\\")) != Escape("\\")
  {
    assert IsReserved('_') && IsReserved('\\') && !IsReserved('a') && !IsReserved('b');
    assert Escape("b") == "b";
    assert Escape("_b") == "\\_b";
    assert Escape("\\") == "\\\\";
  }
}

/**
 * The escaper the message handler applies to a trigger's configured value
 * before building a regular expression from it
 * (nodes/DiscordBot/listeners/messageCreate.ts:46-48), and a decoder that
 * reads the escaped form back.
 */
module Escaping {
  import opened Wrappers

  /** The fourteen characters the first escaping pass prefixes with a backslash. */
  predicate IsMeta(c: char)
  {
    c == '|' || c == '\\' || c == '{' || c == '}' || c == '(' || c == ')' || c == '[' ||
    c == ']' || c == '^' || c == '$' || c == '+' || c == '*' || c == '?' || c == '.'
  }

  /** First pass: every metacharacter gets a leading backslash. */
  function EscapeMeta(s: string): string
  {
    if s == [] then [] else (if IsMeta(s[0]) then ['\\', s[0]] else [s[0]]) + EscapeMeta(s[1..])
  }

  /** Second pass, over the output of the first: every hyphen becomes `\x2d`. */
  function EscapeHyphen(s: string): string
  {
    if s == [] then [] else (if s[0] == '-' then "\\x2d" else [s[0]]) + EscapeHyphen(s[1..])
  }

  /** The escaped trigger value: the two passes, metacharacters first. */
  function Escape(value: string): string
  {
    EscapeHyphen(EscapeMeta(value))
  }

  /** What one character of the value turns into, as a table. */
  function EscapeChar(c: char): string
  {
    if IsMeta(c) then ['\\', c] else if c == '-' then "\\x2d" else [c]
  }

  function Prepend(c: char, o: Option<string>): Option<string>
  {
    match o
    case Some(v) => Some([c] + v)
    case None => None
  }

  /**
   * Reads an escaped value back: `\` followed by a metacharacter stands for
   * that character, `\x2d` for a hyphen, and any other character other than a
   * hyphen for itself. A bare metacharacter, a bare hyphen or any other
   * backslash sequence is rejected.
   */
  function Unescape(p: string): Option<string>
    decreases |p|
  {
    if p == [] then Some([])
    else if p[0] == '\\' then
      if |p| >= 2 && IsMeta(p[1]) then Prepend(p[1], Unescape(p[2..]))
      else if |p| >= 4 && p[1..4] == "x2d" then Prepend('-', Unescape(p[4..]))
      else None
    else if IsMeta(p[0]) || p[0] == '-' then None
    else Prepend(p[0], Unescape(p[1..]))
  }

  lemma {:induction false} EscapeMetaAppend(a: string, b: string)
    ensures EscapeMeta(a + b) == EscapeMeta(a) + EscapeMeta(b)
  {
    if a == [] {
      assert a + b == b;
    } else {
      assert (a + b)[1..] == a[1..] + b;
      EscapeMetaAppend(a[1..], b);
    }
  }

  lemma {:induction false} EscapeHyphenAppend(a: string, b: string)
    ensures EscapeHyphen(a + b) == EscapeHyphen(a) + EscapeHyphen(b)
  {
    if a == [] {
      assert a + b == b;
    } else {
      assert (a + b)[1..] == a[1..] + b;
      EscapeHyphenAppend(a[1..], b);
    }
  }

  /** Escaping distributes over concatenation. */
  lemma EscapeAppend(a: string, b: string)
    ensures Escape(a + b) == Escape(a) + Escape(b)
  {
    EscapeMetaAppend(a, b);
    EscapeHyphenAppend(EscapeMeta(a), EscapeMeta(b));
  }

  /**
   * The two passes together escape one character as the table says: in
   * particular the backslash the hyphen pass inserts is never escaped again,
   * because the metacharacter pass has already run.
   */
  lemma EscapeSingle(c: char)
    ensures Escape([c]) == EscapeChar(c)
  {
    assert [c][1..] == [];
    assert EscapeMeta([c]) == (if IsMeta(c) then ['\\', c] else [c]);
    if IsMeta(c) {
      assert ['\\', c] == ['\\'] + [c];
      EscapeHyphenAppend(['\\'], [c]);
      HyphenPassOne('\\');
      HyphenPassOne(c);
    } else {
      HyphenPassOne(c);
    }
  }

  lemma HyphenPassOne(c: char)
    ensures EscapeHyphen([c]) == if c == '-' then "\\x2d" else [c]
  {
    assert [c][1..] == [];
  }

  /** Escaping is the per-character table applied to each character in turn. */
  lemma EscapeByChar(s: string)
    requires s != []
    ensures Escape(s) == EscapeChar(s[0]) + Escape(s[1..])
  {
    assert s == [s[0]] + s[1..];
    EscapeAppend([s[0]], s[1..]);
    EscapeSingle(s[0]);
  }

  /** No hyphen survives escaping. */
  lemma {:induction false} NoBareHyphen(s: string)
    ensures '-' !in Escape(s)
  {
    if s != [] {
      EscapeByChar(s);
      NoBareHyphen(s[1..]);
    }
  }

  /** An escaped value never begins with a bare metacharacter. */
  lemma EscapeHead(s: string)
    requires s != []
    ensures |Escape(s)| > 0 && (Escape(s)[0] == '\\' || !IsMeta(Escape(s)[0]))
  {
    EscapeByChar(s);
  }

  /** Decoding reads one escaped character back, whatever follows it. */
  lemma UnescapeEscapeChar(c: char, rest: string)
    ensures Unescape(EscapeChar(c) + rest) == Prepend(c, Unescape(rest))
  {
    var p := EscapeChar(c) + rest;
    if IsMeta(c) {
      assert p[0] == '\\' && p[1] == c && p[2..] == rest;
    } else if c == '-' {
      assert p[0] == '\\' && !IsMeta(p[1]) && p[1..4] == "x2d" && p[4..] == rest;
    } else {
      assert p[0] == c && p[1..] == rest;
    }
  }

  /** `v` in front of a decoded text, or still a failure. */
  function PrependAll(v: string, o: Option<string>): Option<string>
  {
    match o
    case Some(u) => Some(v + u)
    case None => None
  }

  /** Decoding an escaped value followed by any text `t` decodes the value, then `t`. */
  lemma {:induction false} UnescapeAfterEscape(v: string, t: string)
    ensures Unescape(Escape(v) + t) == PrependAll(v, Unescape(t))
    decreases |v|
  {
    if v == [] {
      assert Escape(v) == EscapeHyphen(EscapeMeta([])) == [];
      assert Escape(v) + t == t;
      match Unescape(t) {
        case Some(u) => assert v + u == u;
        case None =>
      }
    } else {
      var rest := Escape(v[1..]) + t;
      EscapeByChar(v);
      assert Escape(v) + t == EscapeChar(v[0]) + rest;
      UnescapeEscapeChar(v[0], rest);
      UnescapeAfterEscape(v[1..], t);
      PrependStep(v, Unescape(t));
    }
  }

  lemma PrependStep(v: string, o: Option<string>)
    requires v != []
    ensures Prepend(v[0], PrependAll(v[1..], o)) == PrependAll(v, o)
  {
    if o.Some? {
      assert [v[0]] + (v[1..] + o.value) == v + o.value;
    }
  }

  /** Decoding undoes escaping. */
  lemma EscapeRoundTrip(v: string)
    ensures Unescape(Escape(v)) == Some(v)
  {
    UnescapeAfterEscape(v, []);
    assert Escape(v) + [] == Escape(v);
    assert v + [] == v;
  }

  /** The decoder accepts escaped values only: whatever it decodes was produced by `Escape`. */
  lemma {:induction false} UnescapeOnlyEscaped(p: string, v: string)
    requires Unescape(p) == Some(v)
    ensures p == Escape(v)
    decreases |p|
  {
    if p != [] {
      var n := UnescapeHead(p);
      var w := Unescape(p[n..]).value;
      UnescapeOnlyEscaped(p[n..], w);
      assert v == [v[0]] + w;
      EscapeByChar(v);
      assert p == p[..n] + p[n..];
    }
  }

  /**
   * A decodable text starts with the escaping of its first decoded character,
   * `n` characters long, and the rest decodes to the remaining characters.
   */
  lemma UnescapeHead(p: string) returns (n: nat)
    requires p != [] && Unescape(p).Some?
    ensures 0 < n <= |p| && Unescape(p[n..]).Some?
    ensures Unescape(p).value == [Unescape(p).value[0]] + Unescape(p[n..]).value
    ensures p[..n] == EscapeChar(Unescape(p).value[0])
  {
    if p[0] == '\\' {
      if |p| >= 2 && IsMeta(p[1]) {
        n := 2;
        assert p[..2] == ['\\', p[1]];
      } else {
        n := 4;
        assert p[..4] == "\\x2d";
      }
    } else {
      n := 1;
      assert p[..1] == [p[0]];
    }
  }
}

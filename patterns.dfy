/**
 * How the message handler turns one trigger's pattern kind and value into a
 * regular-expression source (nodes/DiscordBot/listeners/messageCreate.ts:53-68)
 * and what testing the message content against it yields (lines 70-72).
 *
 * No regular-expression engine is modelled in general. A source that consists
 * of an escaped literal, optionally anchored with `^` and `$`, is given its
 * meaning here (a search for the literal); so is the universal `(.*)`. Every
 * other source, which can only come from the raw `regex` kind, is handed to an
 * opaque `Engine` that may report a compile error.
 */
module Patterns {
  import opened Wrappers
  import opened Text
  import opened Escaping

  /** The pattern kinds the handler distinguishes; any unrecognised name is `Exact`. */
  datatype PatternKind = BotMention | Start | End | Contain | Regex | Every | Exact

  function KindOf(pattern: string): PatternKind
  {
    if pattern == "botMention" then BotMention
    else if pattern == "start" then Start
    else if pattern == "end" then End
    else if pattern == "contain" then Contain
    else if pattern == "regex" then Regex
    else if pattern == "every" then Every
    else Exact
  }

  /**
   * The source string compiled for one trigger. The default is the escaped
   * value anchored at both ends; `start` drops the end anchor only when the
   * message content is non-empty.
   */
  function RegStr(kind: PatternKind, value: string, content: string): string
  {
    var e := Escape(value);
    match kind
    case Start => if content != [] then "^" + e else "^" + e + "$"
    case End => e + "$"
    case Contain => e
    case Regex => value
    case Every => "(.*)"
    case _ => "^" + e + "$"
  }

  /** An escaped literal with its anchors, as a regular expression denotes it. */
  datatype LiteralRegex = LiteralRegex(atStart: bool, text: string, atEnd: bool)

  /**
   * Recognises a source made of an optional `^`, an escaped literal and an
   * optional final `$`. A `$` that the literal itself escapes is part of the
   * literal, so the unanchored reading is tried first.
   */
  function ParseLiteral(source: string): Option<LiteralRegex>
  {
    var atStart := |source| > 0 && source[0] == '^';
    var body := if atStart then source[1..] else source;
    match Unescape(body)
    case Some(t) => Some(LiteralRegex(atStart, t, false))
    case None =>
      if |body| > 0 && body[|body| - 1] == '$' then
        match Unescape(body[..|body| - 1])
        case Some(t) => Some(LiteralRegex(atStart, t, true))
        case None => None
      else None
  }

  /** The literal matches `content` at position `i`, respecting its anchors. */
  predicate MatchesAt(lit: LiteralRegex, content: string, ignoreCase: bool, i: int)
  {
    0 <= i <= |content| - |lit.text| &&
    (lit.atStart ==> i == 0) &&
    (lit.atEnd ==> i + |lit.text| == |content|) &&
    TextEq(content[i..i + |lit.text|], lit.text, ignoreCase)
  }

  /** A regular-expression test searches every start position. */
  predicate Search(lit: LiteralRegex, content: string, ignoreCase: bool)
  {
    exists i :: 0 <= i <= |content| && MatchesAt(lit, content, ignoreCase, i)
  }

  /** Compiling and testing a source: a compile error, or whether the content matched. */
  datatype TestResult = Threw | Tested(matched: bool)

  /** The regular-expression engine for sources this model does not interpret. */
  type Engine = (string, bool, string) -> TestResult

  /** Compiles `source` (with the `i` flag when `ignoreCase`) and tests `content` against it. */
  function RegexTest(source: string, ignoreCase: bool, content: string, engine: Engine): TestResult
  {
    match ParseLiteral(source)
    case Some(lit) => Tested(Search(lit, content, ignoreCase))
    case None => if source == "(.*)" then Tested(true) else engine(source, ignoreCase, content)
  }

  /** The kinds whose source is built from the escaped value. */
  predicate IsLiteralKind(kind: PatternKind)
  {
    kind.Exact? || kind.BotMention? || kind.Start? || kind.End? || kind.Contain?
  }

  /** The plain string relation each literal kind stands for. */
  predicate LiteralMatch(kind: PatternKind, value: string, content: string, ignoreCase: bool)
    requires IsLiteralKind(kind)
  {
    match kind
    case Start => HasPrefix(content, value, ignoreCase)
    case End => HasSuffix(content, value, ignoreCase)
    case Contain => Includes(content, value, ignoreCase)
    case _ => TextEq(content, value, ignoreCase)
  }

  /** An escaped value never starts with the `^` anchor. */
  lemma NoLeadingAnchor(value: string)
    ensures !(|Escape(value)| > 0 && Escape(value)[0] == '^')
  {
    if value != [] {
      EscapeHead(value);
    }
  }

  /** An escaped value, after an optional `^`, reads back as that value without an end anchor. */
  lemma ParseEscaped(anchor: string, value: string)
    requires anchor == "" || anchor == "^"
    ensures ParseLiteral(anchor + Escape(value)) == Some(LiteralRegex(anchor == "^", value, false))
  {
    EscapeRoundTrip(value);
    NoLeadingAnchor(value);
    assert (anchor + Escape(value))[|anchor|..] == Escape(value);
  }

  /** An escaped value followed by `$`, after an optional `^`, reads back as that value anchored at the end. */
  lemma ParseEscapedAnchored(anchor: string, value: string)
    requires anchor == "" || anchor == "^"
    ensures ParseLiteral(anchor + Escape(value) + "$") == Some(LiteralRegex(anchor == "^", value, true))
  {
    var body := Escape(value) + "$";
    NoLeadingAnchor(value);
    assert (anchor + Escape(value) + "$")[|anchor|..] == body;
    UnescapeAfterEscape(value, "$");
    assert Unescape("$") == None;
    assert body[..|body| - 1] == Escape(value);
    EscapeRoundTrip(value);
  }

  /**
   * What regular expression each kind's source denotes: the escaped literal
   * kinds denote their value, unescaped, with the anchors the kind calls for;
   * `regex` uses the configured value verbatim; `every` is `(.*)`.
   */
  lemma RegStrDenotes(kind: PatternKind, value: string, content: string)
    ensures kind.Exact? || kind.BotMention? ==>
              ParseLiteral(RegStr(kind, value, content)) == Some(LiteralRegex(true, value, true))
    ensures kind.Start? ==>
              ParseLiteral(RegStr(kind, value, content)) == Some(LiteralRegex(true, value, content == []))
    ensures kind.End? ==>
              ParseLiteral(RegStr(kind, value, content)) == Some(LiteralRegex(false, value, true))
    ensures kind.Contain? ==>
              ParseLiteral(RegStr(kind, value, content)) == Some(LiteralRegex(false, value, false))
    ensures kind.Regex? ==> RegStr(kind, value, content) == value
    ensures kind.Every? ==> ParseLiteral(RegStr(kind, value, content)) == None
  {
    match kind {
      case Start =>
        if content != [] {
          ParseEscaped("^", value);
        } else {
          ParseEscapedAnchored("^", value);
        }
      case End =>
        ParseEscapedAnchored("", value);
        assert "" + Escape(value) + "$" == Escape(value) + "$";
      case Contain =>
        ParseEscaped("", value);
        assert "" + Escape(value) == Escape(value);
      case Regex =>
      case Every =>
        assert Unescape("(.*)") == None;
      case _ =>
        ParseEscapedAnchored("^", value);
    }
  }

  /** Anchored at both ends, the literal search is whole-content comparison. */
  lemma SearchWhole(value: string, content: string, ignoreCase: bool)
    ensures Search(LiteralRegex(true, value, true), content, ignoreCase) <==> TextEq(content, value, ignoreCase)
  {
    if TextEq(content, value, ignoreCase) {
      assert content[0..|value|] == content;
      assert MatchesAt(LiteralRegex(true, value, true), content, ignoreCase, 0);
    }
  }

  /** Anchored at the start only, the literal search is a prefix test. */
  lemma SearchPrefix(value: string, content: string, ignoreCase: bool)
    ensures Search(LiteralRegex(true, value, false), content, ignoreCase) <==> HasPrefix(content, value, ignoreCase)
  {
    if HasPrefix(content, value, ignoreCase) {
      assert content[0..|value|] == content[..|value|];
      assert MatchesAt(LiteralRegex(true, value, false), content, ignoreCase, 0);
    }
  }

  /** Anchored at the end only, the literal search is a suffix test. */
  lemma SearchSuffix(value: string, content: string, ignoreCase: bool)
    ensures Search(LiteralRegex(false, value, true), content, ignoreCase) <==> HasSuffix(content, value, ignoreCase)
  {
    var i := |content| - |value|;
    if HasSuffix(content, value, ignoreCase) {
      assert content[i..i + |value|] == content[i..];
      assert MatchesAt(LiteralRegex(false, value, true), content, ignoreCase, i);
    }
    if Search(LiteralRegex(false, value, true), content, ignoreCase) {
      var j :| 0 <= j <= |content| && MatchesAt(LiteralRegex(false, value, true), content, ignoreCase, j);
      assert j == i && content[j..j + |value|] == content[i..];
    }
  }

  /** Unanchored, the literal search is a substring test. */
  lemma SearchAnywhere(value: string, content: string, ignoreCase: bool)
    ensures Search(LiteralRegex(false, value, false), content, ignoreCase) <==> Includes(content, value, ignoreCase)
  {
    var lit := LiteralRegex(false, value, false);
    IncludesAt(content, value, ignoreCase);
    if Includes(content, value, ignoreCase) {
      var i :| OccursAt(content, value, i, ignoreCase);
      assert MatchesAt(lit, content, ignoreCase, i);
    }
    if Search(lit, content, ignoreCase) {
      var i :| 0 <= i <= |content| && MatchesAt(lit, content, ignoreCase, i);
      assert OccursAt(content, value, i, ignoreCase);
    }
  }

  /**
   * For the escaped literal kinds, testing the content never fails to compile
   * and matches exactly when the plain string relation of the kind holds:
   * equality by default and for `botMention`, prefix for `start` (also on empty
   * content, where the source keeps both anchors), suffix for `end`, substring
   * for `contain`; exact or up to case as `ignoreCase` says.
   */
  lemma LiteralKindsMatch(kind: PatternKind, value: string, content: string, ignoreCase: bool, engine: Engine)
    requires IsLiteralKind(kind)
    ensures RegexTest(RegStr(kind, value, content), ignoreCase, content, engine) ==
            Tested(LiteralMatch(kind, value, content, ignoreCase))
  {
    RegStrDenotes(kind, value, content);
    match kind {
      case Start =>
        if content == [] {
          SearchWhole(value, content, ignoreCase);
          assert HasPrefix(content, value, ignoreCase) <==> TextEq(content, value, ignoreCase);
        } else {
          SearchPrefix(value, content, ignoreCase);
        }
      case End => SearchSuffix(value, content, ignoreCase);
      case Contain => SearchAnywhere(value, content, ignoreCase);
      case _ => SearchWhole(value, content, ignoreCase);
    }
  }

  /** `every` matches whatever the content, the empty string included, and whatever the value. */
  lemma EveryMatchesAll(value: string, content: string, ignoreCase: bool, engine: Engine)
    ensures RegexTest(RegStr(Every, value, content), ignoreCase, content, engine) == Tested(true)
  {
    RegStrDenotes(Every, value, content);
  }
}

/**
 * Concrete messages run through the pass: the behaviour the bot's users rely
 * on, and the input that shows a filter miss on one trigger silencing the
 * triggers registered after it.
 */
module Scenarios {
  import opened Wrappers
  import opened Text
  import opened Patterns
  import opened Dispatch

  function Human(): Author
  {
    Author("u1", false, false)
  }

  function Params(pattern: string, value: string, caseSensitive: bool, roleIds: seq<string>, channelIds: seq<string>): Parameters
  {
    Parameters(pattern, value, caseSensitive, roleIds, channelIds, Some("https://n8n.example"))
  }

  function Node(hook: string, p: Parameters): TriggerNode
  {
    TriggerNode(p, hook, "https://n8n.example", true)
  }

  function PrefixNode(): TriggerNode
  {
    Node("hookA", Params("start", "!run", false, [], ["C1"]))
  }

  /** "!run" is a prefix of "!RUN now" up to case, and "C1" passes the channel filter ["C1"]. */
  lemma PrefixTriggerFacts()
    ensures HasPrefix("!RUN now", "!run", true)
    ensures InChannel(["C1"], "C1")
  {
    assert "!RUN now"[..4] == "!RUN";
    assert "C1"[..2] == "C1";
    assert Includes("C1", "C1", false);
  }

  /** A case-insensitive `start` trigger on "!run" restricted to channel "C1" fires once for "!RUN now" in "C1". */
  lemma PrefixTriggerInChannel(clientId: Option<string>, engine: Engine)
    ensures var m := Message(Human(), "!RUN now", "C1", None, []);
            Pass([("A", PrefixNode())], m, clientId, engine) == [Delivery("hookA", m, Some("https://n8n.example"))]
  {
    var m := Message(Human(), "!RUN now", "C1", None, []);
    PrefixTriggerFacts();
    LiteralKinds(PrefixNode(), m, clientId, engine);
    PassSingle(("A", PrefixNode()), m, clientId, engine);
  }

  /** The same trigger and content in channel "C2" deliver nothing. */
  lemma PrefixTriggerOtherChannel(clientId: Option<string>, engine: Engine)
    ensures Pass([("A", PrefixNode())], Message(Human(), "!RUN now", "C2", None, []), clientId, engine) == []
  {
    assert !InChannel(["C1"], "C2") by {
      SubstringIncludes("C2", "C1");
      assert !SliceAt("C2", "C1", 0) by {
        assert "C2"[0..2] == "C2";
      }
    }
  }

  /** The role filter with configured role "R1": an author with only "R2" is turned away, one with "R1" and "R2" is not. */
  lemma RoleFilterScenario(clientId: Option<string>, engine: Engine)
    ensures var a := Node("hookA", Params("every", "", true, ["R1"], []));
            Examine(a, Message(Human(), "hi", "C1", Some(["R2"]), []), clientId, engine) == RoleDenied &&
            Examine(a, Message(Human(), "hi", "C1", Some(["R1", "R2"]), []), clientId, engine).Fired?
  {
    var a := Node("hookA", Params("every", "", true, ["R1"], []));
    var m := Message(Human(), "hi", "C1", Some(["R1", "R2"]), []);
    assert HasRole(["R1"], m.memberRoles) by {
      assert "R1" in ["R1"] && "R1" in m.memberRoles.value;
    }
    EveryKind(a, m, clientId, engine);
  }

  /** Up to case, "a.b" occurs in "xa.by". */
  lemma DotOccurs(hit: string, p: string)
    requires hit == "xa.by" && p == "a.b"
    ensures Includes(hit, p, true)
  {
    IncludesAt(hit, p, true);
    assert hit[1..4] == p;
    assert OccursAt(hit, p, 1, true);
  }

  /** Not even up to case does "a.b" occur in "axb". */
  lemma DotAbsent(miss: string, p: string)
    requires miss == "axb" && p == "a.b"
    ensures !Includes(miss, p, true)
  {
    IncludesAt(miss, p, true);
    assert !OccursAt(miss, p, 0, true) by {
      assert miss[0..3] == miss && !CharEq(miss[1], p[1], true);
    }
  }

  /** A `contain` pattern on "a.b" matches content holding a literal "a.b" and does not match "axb": the dot is a literal dot. */
  lemma EscapedDotScenario(value: string, hit: string, miss: string, engine: Engine)
    requires value == "a.b" && hit == "xa.by" && miss == "axb"
    ensures RegexTest(RegStr(Contain, value, hit), true, hit, engine) == Tested(true)
    ensures RegexTest(RegStr(Contain, value, miss), true, miss, engine) == Tested(false)
  {
    DotOccurs(hit, value);
    DotAbsent(miss, value);
    LiteralKindsMatch(Contain, value, hit, true, engine);
    LiteralKindsMatch(Contain, value, miss, true, engine);
  }

  /**
   * A trigger whose role filter turns the author away makes the handler
   * return, so an unrestricted `every` trigger registered after it is never
   * reached, although examined on its own it would deliver.
   */
  lemma FilterMissHidesLaterEntries(clientId: Option<string>, engine: Engine)
    ensures var registry := [("A", Node("hookA", Params("every", "", true, ["R1"], []))),
                             ("B", Node("hookB", Params("every", "", true, [], [])))];
            var m := Message(Human(), "hello", "C1", Some(["R2"]), []);
            Pass(registry, m, clientId, engine) == [] &&
            IntendedPass(registry, m, clientId, engine) == [Delivery("hookB", m, Some("https://n8n.example"))]
  {
    var a := Node("hookA", Params("every", "", true, ["R1"], []));
    var b := Node("hookB", Params("every", "", true, [], []));
    var registry := [("A", a), ("B", b)];
    var m := Message(Human(), "hello", "C1", Some(["R2"]), []);
    assert Examine(a, m, clientId, engine) == RoleDenied;
    EveryKind(b, m, clientId, engine);
    assert registry[1..] == [("B", b)];
  }
}

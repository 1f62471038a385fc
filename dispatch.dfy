/**
 * The per-message dispatch pass of the bot process
 * (nodes/DiscordBot/listeners/messageCreate.ts:11-96): walk the registry of
 * trigger nodes in order and, for each one whose filters and pattern accept
 * the message, deliver the message to that node's webhook.
 */
module Dispatch {
  import opened Wrappers
  import opened Text
  import opened Patterns
  import Escaping

  /** The node parameters the pass reads. */
  datatype Parameters = Parameters(
    pattern: string,
    value: string,
    caseSensitive: bool,
    roleIds: seq<string>,
    channelIds: seq<string>,
    baseUrl: Option<string>)

  /**
   * One registry entry. `baseUrl` and `active` come with the registration but
   * the pass reads neither: deliveries go to `parameters.baseUrl`, and inactive
   * entries are examined like active ones.
   */
  datatype TriggerNode = TriggerNode(parameters: Parameters, webhookId: string, baseUrl: string, active: bool)

  /** The registry in iteration order: node id and entry. */
  type Registry = seq<(string, TriggerNode)>

  datatype Author = Author(id: string, bot: bool, system: bool)

  /** `memberRoles` is `None` when the author has no guild member record. */
  datatype Message = Message(
    author: Author,
    content: string,
    channelId: string,
    memberRoles: Option<seq<string>>,
    mentionedUserIds: seq<string>)

  /** One call of the workflow trigger: webhook, message, base URL. */
  datatype Delivery = Delivery(webhookId: string, message: Message, baseUrl: Option<string>)

  /**
   * What examining one entry comes to: one of the four early returns, a caught
   * exception, no match, or a delivery.
   */
  datatype Outcome =
    | AuthorIgnored
    | RoleDenied
    | ChannelDenied
    | NotMentioned
    | Caught
    | NoMatch
    | Fired(delivery: Delivery)

  predicate IsAutomated(author: Author)
  {
    author.bot || author.system
  }

  /** Some configured role is among the author's roles; no roles at all never passes. */
  predicate HasRole(roleIds: seq<string>, memberRoles: Option<seq<string>>)
  {
    exists r :: r in roleIds && memberRoles.Some? && r in memberRoles.value
  }

  /** Some configured channel id occurs inside the message's channel id. */
  predicate InChannel(channelIds: seq<string>, channelId: string)
  {
    exists c :: c in channelIds && Includes(channelId, c, false)
  }

  /** The bot's own user id, when it has one, is among the mentioned users. */
  predicate BotMentioned(message: Message, clientId: Option<string>)
  {
    clientId.Some? && clientId.value in message.mentionedUserIds
  }

  /** Both filters accept the message; an empty list accepts everything. */
  predicate FiltersPass(p: Parameters, message: Message)
  {
    (|p.roleIds| == 0 || HasRole(p.roleIds, message.memberRoles)) &&
    (|p.channelIds| == 0 || InChannel(p.channelIds, message.channelId))
  }

  /** The body of one loop iteration, in the order the handler runs its checks. */
  function Examine(node: TriggerNode, message: Message, clientId: Option<string>, engine: Engine): Outcome
  {
    var p := node.parameters;
    if IsAutomated(message.author) then AuthorIgnored
    else if |p.roleIds| > 0 && !HasRole(p.roleIds, message.memberRoles) then RoleDenied
    else if |p.channelIds| > 0 && !InChannel(p.channelIds, message.channelId) then ChannelDenied
    else
      var kind := KindOf(p.pattern);
      var mentioned := BotMentioned(message, clientId);
      if kind == BotMention && !mentioned then NotMentioned
      else
        match RegexTest(RegStr(kind, p.value, message.content), !p.caseSensitive, message.content, engine)
        case Threw => Caught
        case Tested(hit) =>
          if (kind == BotMention && mentioned) || hit then Fired(Delivery(node.webhookId, message, p.baseUrl))
          else NoMatch
  }

  /** The outcomes at which the handler returns, abandoning the remaining entries. */
  predicate EndsPass(o: Outcome)
  {
    o.AuthorIgnored? || o.RoleDenied? || o.ChannelDenied? || o.NotMentioned?
  }

  function Emitted(o: Outcome): seq<Delivery>
  {
    if o.Fired? then [o.delivery] else []
  }

  /** The deliveries of one pass over `registry`, as the handler is written. */
  function Pass(registry: Registry, message: Message, clientId: Option<string>, engine: Engine): seq<Delivery>
    decreases |registry|
  {
    if registry == [] then []
    else
      var o := Examine(registry[0].1, message, clientId, engine);
      if EndsPass(o) then [] else Emitted(o) + Pass(registry[1..], message, clientId, engine)
  }

  /** The deliveries of a pass in which every entry is examined on its own. */
  function IntendedPass(registry: Registry, message: Message, clientId: Option<string>, engine: Engine): seq<Delivery>
    decreases |registry|
  {
    if registry == [] then []
    else Emitted(Examine(registry[0].1, message, clientId, engine)) + IntendedPass(registry[1..], message, clientId, engine)
  }

  /** The index of the first entry at which the handler returns, or the registry's length. */
  function FirstStop(registry: Registry, message: Message, clientId: Option<string>, engine: Engine): (k: nat)
    ensures k <= |registry|
    ensures forall j :: 0 <= j < k ==> !EndsPass(Examine(registry[j].1, message, clientId, engine))
    ensures k < |registry| ==> EndsPass(Examine(registry[k].1, message, clientId, engine))
    decreases |registry|
  {
    if registry == [] then 0
    else if EndsPass(Examine(registry[0].1, message, clientId, engine)) then 0
    else 1 + FirstStop(registry[1..], message, clientId, engine)
  }

  /** Messages from bots and system accounts never cause a delivery, however the pass is run. */
  lemma {:induction false} AutomatedAuthorNoDelivery(registry: Registry, message: Message, clientId: Option<string>, engine: Engine)
    requires IsAutomated(message.author)
    ensures Pass(registry, message, clientId, engine) == []
    ensures IntendedPass(registry, message, clientId, engine) == []
    decreases |registry|
  {
    if registry != [] {
      AutomatedAuthorNoDelivery(registry[1..], message, clientId, engine);
    }
  }

  /** With every entry examined on its own, the deliveries of a registry are those of its parts, in order. */
  lemma {:induction false} IntendedPassAppend(a: Registry, b: Registry, message: Message, clientId: Option<string>, engine: Engine)
    ensures IntendedPass(a + b, message, clientId, engine) ==
            IntendedPass(a, message, clientId, engine) + IntendedPass(b, message, clientId, engine)
    decreases |a|
  {
    if a == [] {
      assert a + b == b;
    } else {
      assert (a + b)[0] == a[0] && (a + b)[1..] == a[1..] + b;
      IntendedPassAppend(a[1..], b, message, clientId, engine);
    }
  }

  /**
   * The pass as written delivers exactly what the entries before the first
   * early return deliver, in registry order, and nothing from that entry on.
   */
  lemma {:induction false} PassStopsAtFirstFilterMiss(registry: Registry, message: Message, clientId: Option<string>, engine: Engine)
    ensures Pass(registry, message, clientId, engine) ==
            IntendedPass(registry[..FirstStop(registry, message, clientId, engine)], message, clientId, engine)
    decreases |registry|
  {
    if registry != [] {
      var k := FirstStop(registry, message, clientId, engine);
      if k == 0 {
        assert registry[..0] == [];
      } else {
        PassStopsAtFirstFilterMiss(registry[1..], message, clientId, engine);
        assert registry[..k][0] == registry[0] && registry[..k][1..] == registry[1..][..k - 1];
      }
    }
  }

  /** The trace as written is always a prefix of the trace with every entry examined on its own. */
  lemma PassIsPrefixOfIntended(registry: Registry, message: Message, clientId: Option<string>, engine: Engine)
    ensures Pass(registry, message, clientId, engine) <= IntendedPass(registry, message, clientId, engine)
    ensures FirstStop(registry, message, clientId, engine) == |registry| ==>
            Pass(registry, message, clientId, engine) == IntendedPass(registry, message, clientId, engine)
  {
    var k := FirstStop(registry, message, clientId, engine);
    PassStopsAtFirstFilterMiss(registry, message, clientId, engine);
    assert registry == registry[..k] + registry[k..];
    IntendedPassAppend(registry[..k], registry[k..], message, clientId, engine);
  }

  /** Running the pass over two registries joined: the second is reached only if the first never returns early. */
  lemma {:induction false} PassAppend(a: Registry, b: Registry, message: Message, clientId: Option<string>, engine: Engine)
    ensures Pass(a + b, message, clientId, engine) ==
            if FirstStop(a, message, clientId, engine) < |a| then Pass(a, message, clientId, engine)
            else Pass(a, message, clientId, engine) + Pass(b, message, clientId, engine)
    decreases |a|
  {
    if a == [] {
      assert a + b == b;
    } else {
      assert (a + b)[0] == a[0] && (a + b)[1..] == a[1..] + b;
      PassAppend(a[1..], b, message, clientId, engine);
    }
  }

  /**
   * An entry whose pattern fails to compile, or does not match, leaves the
   * trace as if it were not registered at all.
   */
  lemma SkippedEntryIsInvisible(registry: Registry, k: nat, message: Message, clientId: Option<string>, engine: Engine)
    requires k < |registry|
    requires Examine(registry[k].1, message, clientId, engine).Caught? ||
             Examine(registry[k].1, message, clientId, engine).NoMatch?
    ensures Pass(registry, message, clientId, engine) ==
            Pass(registry[..k] + registry[k + 1..], message, clientId, engine)
  {
    var before, after := registry[..k], registry[k + 1..];
    assert registry == before + ([registry[k]] + after);
    PassAppend(before, [registry[k]] + after, message, clientId, engine);
    PassAppend(before, after, message, clientId, engine);
    PassSkip(registry[k], after, message, clientId, engine);
  }

  /** A registry of one entry delivers what that entry delivers, unless it returns early. */
  lemma PassSingle(entry: (string, TriggerNode), message: Message, clientId: Option<string>, engine: Engine)
    ensures var o := Examine(entry.1, message, clientId, engine);
            Pass([entry], message, clientId, engine) == if EndsPass(o) then [] else Emitted(o)
  {
    assert [entry][1..] == [];
  }

  /** An entry that neither returns early nor delivers contributes nothing to the pass. */
  lemma PassSkip(entry: (string, TriggerNode), after: Registry, message: Message, clientId: Option<string>, engine: Engine)
    requires !EndsPass(Examine(entry.1, message, clientId, engine))
    requires !Examine(entry.1, message, clientId, engine).Fired?
    ensures Pass([entry] + after, message, clientId, engine) == Pass(after, message, clientId, engine)
  {
    assert ([entry] + after)[0] == entry && ([entry] + after)[1..] == after;
  }

  /** The role filter: no configured roles pass everyone; otherwise an author role must be configured, and no roles fail. */
  lemma RoleFilter(node: TriggerNode, message: Message, clientId: Option<string>, engine: Engine)
    requires !IsAutomated(message.author)
    ensures Examine(node, message, clientId, engine) == RoleDenied <==>
            |node.parameters.roleIds| > 0 &&
            (message.memberRoles.None? || forall r :: r in node.parameters.roleIds ==> r !in message.memberRoles.value)
  {
  }

  /** The channel filter: no configured channels pass every channel; otherwise a configured id must be a substring of the channel id. */
  lemma ChannelFilter(node: TriggerNode, message: Message, clientId: Option<string>, engine: Engine)
    requires !IsAutomated(message.author)
    requires |node.parameters.roleIds| == 0 || HasRole(node.parameters.roleIds, message.memberRoles)
    ensures Examine(node, message, clientId, engine) == ChannelDenied <==>
            |node.parameters.channelIds| > 0 &&
            forall c :: c in node.parameters.channelIds ==> !exists i :: SliceAt(message.channelId, c, i)
  {
    forall c | c in node.parameters.channelIds {
      SubstringIncludes(message.channelId, c);
    }
  }

  /**
   * `botMention` delivers exactly when the bot itself is mentioned, whatever
   * the configured value; otherwise the handler returns.
   */
  lemma BotMentionKind(node: TriggerNode, message: Message, clientId: Option<string>, engine: Engine)
    requires !IsAutomated(message.author) && FiltersPass(node.parameters, message)
    requires KindOf(node.parameters.pattern) == BotMention
    ensures Examine(node, message, clientId, engine) ==
            if BotMentioned(message, clientId) then Fired(Delivery(node.webhookId, message, node.parameters.baseUrl))
            else NotMentioned
  {
    var p := node.parameters;
    LiteralKindsMatch(BotMention, p.value, message.content, !p.caseSensitive, engine);
  }

  /**
   * The escaped literal kinds never fail and deliver exactly when their string
   * relation holds: equality by default, prefix for `start`, suffix for `end`,
   * substring for `contain`, folded to upper case unless `caseSensitive`.
   */
  lemma LiteralKinds(node: TriggerNode, message: Message, clientId: Option<string>, engine: Engine)
    requires !IsAutomated(message.author) && FiltersPass(node.parameters, message)
    requires IsLiteralKind(KindOf(node.parameters.pattern)) && KindOf(node.parameters.pattern) != BotMention
    ensures var p := node.parameters;
            Examine(node, message, clientId, engine) ==
            if LiteralMatch(KindOf(p.pattern), p.value, message.content, !p.caseSensitive)
            then Fired(Delivery(node.webhookId, message, p.baseUrl))
            else NoMatch
  {
    var p := node.parameters;
    LiteralKindsMatch(KindOf(p.pattern), p.value, message.content, !p.caseSensitive, engine);
  }

  /** `every` delivers every message that passes the filters, empty content included. */
  lemma EveryKind(node: TriggerNode, message: Message, clientId: Option<string>, engine: Engine)
    requires !IsAutomated(message.author) && FiltersPass(node.parameters, message)
    requires KindOf(node.parameters.pattern) == Every
    ensures Examine(node, message, clientId, engine) == Fired(Delivery(node.webhookId, message, node.parameters.baseUrl))
  {
    var p := node.parameters;
    EveryMatchesAll(p.value, message.content, !p.caseSensitive, engine);
  }

  /**
   * `regex` compiles the configured value itself, unescaped: a compile error
   * is caught, otherwise the test result decides.
   */
  lemma RegexKind(node: TriggerNode, message: Message, clientId: Option<string>, engine: Engine)
    requires !IsAutomated(message.author) && FiltersPass(node.parameters, message)
    requires KindOf(node.parameters.pattern) == Regex
    ensures var p := node.parameters;
            Examine(node, message, clientId, engine) ==
            match RegexTest(p.value, !p.caseSensitive, message.content, engine)
            case Threw => Caught
            case Tested(hit) => if hit then Fired(Delivery(node.webhookId, message, p.baseUrl)) else NoMatch
  {
    RegStrDenotes(Regex, node.parameters.value, message.content);
  }

  /**
   * Content that equals the value only up to letter case triggers an exact
   * pattern exactly when the entry is not case sensitive.
   */
  lemma CaseSensitivity(node: TriggerNode, message: Message, clientId: Option<string>, engine: Engine)
    requires !IsAutomated(message.author) && FiltersPass(node.parameters, message)
    requires KindOf(node.parameters.pattern) == Exact
    requires message.content != node.parameters.value && TextEq(message.content, node.parameters.value, true)
    ensures Examine(node, message, clientId, engine).Fired? <==> !node.parameters.caseSensitive
  {
    LiteralKinds(node, message, clientId, engine);
    ExactComparison(message.content, node.parameters.value);
  }

  /** One step of the pass: the entry at `i` either ends it or adds its deliveries to the rest. */
  lemma PassStep(registry: Registry, i: nat, message: Message, clientId: Option<string>, engine: Engine)
    requires i < |registry|
    ensures var o := Examine(registry[i].1, message, clientId, engine);
            Pass(registry[i..], message, clientId, engine) ==
            if EndsPass(o) then [] else Emitted(o) + Pass(registry[i + 1..], message, clientId, engine)
  {
    assert registry[i..][0] == registry[i] && registry[i..][1..] == registry[i + 1..];
  }

  /** Past an entry that does not end the pass, its deliveries join the trace. */
  lemma PassAdvance(registry: Registry, i: nat, trace: seq<Delivery>, message: Message, clientId: Option<string>, engine: Engine)
    requires i < |registry|
    requires trace + Pass(registry[i..], message, clientId, engine) == Pass(registry, message, clientId, engine)
    requires !EndsPass(Examine(registry[i].1, message, clientId, engine))
    ensures (trace + Emitted(Examine(registry[i].1, message, clientId, engine))) + Pass(registry[i + 1..], message, clientId, engine)
            == Pass(registry, message, clientId, engine)
  {
    PassStep(registry, i, message, clientId, engine);
  }

  /**
   * The handler: one iteration per registry entry, in order. A failed author,
   * role, channel or mention check returns from the whole handler; a compile
   * error is caught and the loop goes on; a match awaits the delivery, whose
   * failure is swallowed, before the next entry.
   */
  method OnMessageCreate(registry: Registry, message: Message, clientId: Option<string>, engine: Engine)
    returns (trace: seq<Delivery>)
    ensures trace == Pass(registry, message, clientId, engine)
  {
    trace := [];
    var i := 0;
    while i < |registry|
      invariant 0 <= i <= |registry|
      invariant trace + Pass(registry[i..], message, clientId, engine) == Pass(registry, message, clientId, engine)
    {
      PassStep(registry, i, message, clientId, engine);
      var data := registry[i].1;
      if message.author.bot || message.author.system {
        assert Examine(data, message, clientId, engine) == AuthorIgnored;
        return;
      }
      var p := data.parameters;
      if |p.roleIds| > 0 {
        var hasRole := HasRole(p.roleIds, message.memberRoles);
        if !hasRole {
          assert Examine(data, message, clientId, engine) == RoleDenied;
          return;
        }
      }
      if |p.channelIds| > 0 {
        var isInChannel := InChannel(p.channelIds, message.channelId);
        if !isInChannel {
          assert Examine(data, message, clientId, engine) == ChannelDenied;
          return;
        }
      }
      var escapedTriggerValue := Escaping.Escape(p.value);
      var botMention := BotMentioned(message, clientId);
      var regStr := "^" + escapedTriggerValue + "$";
      var kind := KindOf(p.pattern);
      if kind == BotMention && !botMention {
        assert Examine(data, message, clientId, engine) == NotMentioned;
        return;
      } else if kind == Start && message.content != [] {
        regStr := "^" + escapedTriggerValue;
      } else if kind == End {
        regStr := escapedTriggerValue + "$";
      } else if kind == Contain {
        regStr := escapedTriggerValue;
      } else if kind == Regex {
        regStr := p.value;
      } else if kind == Every {
        regStr := "(.*)";
      }
      assert regStr == RegStr(kind, p.value, message.content);
      var test := RegexTest(regStr, !p.caseSensitive, message.content, engine);
      ghost var outcome := Examine(data, message, clientId, engine);
      assert outcome == match test
                        case Threw => Caught
                        case Tested(hit) =>
                          if (kind == BotMention && botMention) || hit then Fired(Delivery(data.webhookId, message, p.baseUrl))
                          else NoMatch;
      PassAdvance(registry, i, trace, message, clientId, engine);
      if test.Tested? && ((kind == BotMention && botMention) || test.matched) {
        trace := trace + [Delivery(data.webhookId, message, p.baseUrl)];
      } else {
        assert trace + [] == trace;
      }
      i := i + 1;
    }
  }
}

/** The router's filter rules, and the two operations billing performs on them. A call that
    fails has no effect. */
module Router {
  /** A rule with the router's own identifier; the comment is the tag of a billing block. */
  datatype Rule = Rule(id: int, comment: string, srcAddress: string)

  const SUBSCRIBER_BLOCK_PREFIX := "BLOQUEIO_INADIMPLENTE_"

  function Tag(ip: string): string {
    SUBSCRIBER_BLOCK_PREFIX + ip
  }

  lemma TagIsInjective(x: string, y: string)
    requires Tag(x) == Tag(y)
    ensures x == y
  {
    assert x == Tag(x)[|SUBSCRIBER_BLOCK_PREFIX|..] == Tag(y)[|SUBSCRIBER_BLOCK_PREFIX|..] == y;
  }

  /** The rules that carry a tag, in order. */
  function Tagged(rules: seq<Rule>, comment: string): seq<Rule> {
    if rules == [] then []
    else
      var front := Tagged(rules[..|rules| - 1], comment);
      if rules[|rules| - 1].comment == comment then front + [rules[|rules| - 1]] else front
  }

  /** The rules that do not. */
  function Untagged(rules: seq<Rule>, comment: string): seq<Rule> {
    if rules == [] then []
    else
      var front := Untagged(rules[..|rules| - 1], comment);
      if rules[|rules| - 1].comment != comment then front + [rules[|rules| - 1]] else front
  }

  predicate DistinctRules(rules: seq<Rule>) {
    forall i, j | 0 <= i < j < |rules| :: rules[i].id != rules[j].id
  }

  function WithoutId(rules: seq<Rule>, id: int): seq<Rule> {
    if rules == [] then []
    else
      var front := WithoutId(rules[..|rules| - 1], id);
      if rules[|rules| - 1].id != id then front + [rules[|rules| - 1]] else front
  }

  /** The rules after a successful block: one more, unless the tag is already there. */
  function AfterBlock(rules: seq<Rule>, id: int, ip: string): seq<Rule> {
    if Tagged(rules, Tag(ip)) != [] then rules else rules + [Rule(id, Tag(ip), ip)]
  }

  /** The rules after a successful unblock: every tagged one is gone. */
  function AfterUnblock(rules: seq<Rule>, ip: string): seq<Rule> {
    Untagged(rules, Tag(ip))
  }

  /** Blocking an address that no rule is tagged for adds exactly one rule: it carries the tag
      and drops that address. Blocking it again adds none. */
  lemma BlockAddsRuleFor(rules: seq<Rule>, id: int, ip: string)
    ensures (forall i | 0 <= i < |rules| :: rules[i].comment != "BLOQUEIO_INADIMPLENTE_" + ip) ==>
              AfterBlock(rules, id, ip) == rules + [Rule(id, "BLOQUEIO_INADIMPLENTE_" + ip, ip)]
    ensures (exists i :: 0 <= i < |rules| && rules[i].comment == "BLOQUEIO_INADIMPLENTE_" + ip) ==>
              AfterBlock(rules, id, ip) == rules
  {
    var tagged := Tagged(rules, Tag(ip));
    if tagged != [] { assert tagged[0] in tagged; }
    TaggedMembers(rules, Tag(ip));
  }

  /** Unblocking keeps the rules without the tag, in order, and no other. */
  lemma {:induction false} UnblockKeepsOthers(rules: seq<Rule>, r: Rule, ip: string)
    ensures AfterUnblock(rules + [r], ip) ==
            AfterUnblock(rules, ip) + (if r.comment == "BLOQUEIO_INADIMPLENTE_" + ip then [] else [r])
    ensures AfterUnblock([], ip) == []
  {
    assert (rules + [r])[..|rules|] == rules;
  }

  lemma {:induction false} TaggedAppend(rules: seq<Rule>, r: Rule, comment: string)
    ensures Tagged(rules + [r], comment) == Tagged(rules, comment) + (if r.comment == comment then [r] else [])
  {
    assert (rules + [r])[..|rules|] == rules;
  }

  lemma {:induction false} TaggedOfUntagged(rules: seq<Rule>, removed: string, comment: string)
    ensures Tagged(Untagged(rules, removed), comment) == if comment == removed then [] else Tagged(rules, comment)
    ensures forall r :: r in Untagged(rules, removed) <==> r in rules && r.comment != removed
  {
    if rules != [] {
      var front, last := rules[..|rules| - 1], rules[|rules| - 1];
      TaggedOfUntagged(front, removed, comment);
      if last.comment != removed { TaggedAppend(Untagged(front, removed), last, comment); }
      assert forall r :: r in rules <==> r in front || r == last;
    }
  }

  lemma {:induction false} TaggedMembers(rules: seq<Rule>, comment: string)
    ensures forall r :: r in Tagged(rules, comment) <==> r in rules && r.comment == comment
  {
    if rules != [] {
      var front, last := rules[..|rules| - 1], rules[|rules| - 1];
      TaggedMembers(front, comment);
      assert forall r :: r in rules <==> r in front || r == last;
    }
  }

  /** Removing by identifier, one after the other, what a filter selected removes exactly
      the selection. */
  ghost function WithoutIds(rules: seq<Rule>, gone: set<int>): seq<Rule> {
    if rules == [] then []
    else
      var front := WithoutIds(rules[..|rules| - 1], gone);
      if rules[|rules| - 1].id !in gone then front + [rules[|rules| - 1]] else front
  }

  lemma {:induction false} RemoveOneMore(rules: seq<Rule>, gone: set<int>, id: int)
    ensures WithoutId(WithoutIds(rules, gone), id) == WithoutIds(rules, gone + {id})
  {
    if rules != [] {
      var front, last := rules[..|rules| - 1], rules[|rules| - 1];
      RemoveOneMore(front, gone, id);
      if last.id !in gone {
        var some := WithoutIds(front, gone);
        assert (some + [last])[..|some|] == some;
      }
    }
  }

  lemma {:induction false} RemoveNone(rules: seq<Rule>)
    ensures WithoutIds(rules, {}) == rules
  {
    if rules != [] { RemoveNone(rules[..|rules| - 1]); }
  }

  lemma {:induction false} RemoveTagged(rules: seq<Rule>, comment: string, gone: set<int>)
    requires forall r | r in rules :: r.id in gone <==> r.comment == comment
    ensures WithoutIds(rules, gone) == Untagged(rules, comment)
  {
    if rules != [] {
      assert rules[|rules| - 1] in rules;
      RemoveTagged(rules[..|rules| - 1], comment, gone);
    }
  }

  ghost function Ids(rules: seq<Rule>): set<int> {
    set r | r in rules :: r.id
  }

  lemma TaggedIds(rules: seq<Rule>, comment: string)
    requires DistinctRules(rules)
    ensures forall r | r in rules :: r.id in Ids(Tagged(rules, comment)) <==> r.comment == comment
  {
    TaggedMembers(rules, comment);
    forall r | r in rules ensures r.id in Ids(Tagged(rules, comment)) <==> r.comment == comment {
      if r.comment == comment { assert r in Tagged(rules, comment); }
    }
  }

  class Router {
    var rules: seq<Rule>
    var lastId: int

    /** Identifiers are unique, as the router guarantees. */
    ghost predicate Valid()
      reads this
    {
      DistinctRules(rules) && forall r | r in rules :: r.id <= lastId
    }

    constructor ()
      ensures Valid() && rules == [] && lastId == 0
    {
      rules, lastId := [], 0;
    }

    /** `block_subscriber_ip`; `ok` says whether the router answers. */
    method BlockSubscriberIp(ip: string, ok: bool) returns (success: bool)
      requires Valid()
      modifies this
      ensures Valid() && success == ok
      ensures rules == (if ok then AfterBlock(old(rules), old(lastId) + 1, ip) else old(rules))
      ensures lastId == if rules == old(rules) then old(lastId) else old(lastId) + 1
      ensures ok && (forall i | 0 <= i < |old(rules)| :: old(rules)[i].comment != Tag(ip)) ==>
                rules == old(rules) + [Rule(lastId, "BLOQUEIO_INADIMPLENTE_" + ip, ip)]
    {
      BlockAddsRuleFor(rules, lastId + 1, ip);
      if !ok { return false; }
      var comment := Tag(ip);
      if Tagged(rules, comment) != [] { return true; }
      assert |rules + [Rule(lastId + 1, comment, ip)]| != |rules|;
      lastId := lastId + 1;
      rules := rules + [Rule(lastId, comment, ip)];
      return true;
    }

    /** `unblock_subscriber_ip`: remove every rule with the tag, one command each. */
    method UnblockSubscriberIp(ip: string, ok: bool) returns (success: bool)
      requires Valid()
      modifies this
      ensures Valid() && success == ok && lastId == old(lastId)
      ensures rules == if ok then AfterUnblock(old(rules), ip) else old(rules)
    {
      if !ok { return false; }
      var comment := Tag(ip);
      var selected := Tagged(rules, comment);
      RemoveNone(rules);
      assert Ids(selected[..0]) == {};
      for i := 0 to |selected|
        invariant rules == WithoutIds(old(rules), Ids(selected[..i])) && lastId == old(lastId)
      {
        RemoveOneMore(old(rules), Ids(selected[..i]), selected[i].id);
        assert selected[..i + 1] == selected[..i] + [selected[i]];
        assert Ids(selected[..i + 1]) == Ids(selected[..i]) + {selected[i].id};
        rules := WithoutId(rules, selected[i].id);
      }
      assert selected[..|selected|] == selected;
      TaggedIds(old(rules), comment);
      RemoveTagged(old(rules), comment, Ids(selected));
      UntaggedIsValid(old(rules), comment);
      return true;
    }
  }

  lemma {:induction false} UntaggedIsValid(rules: seq<Rule>, comment: string)
    requires DistinctRules(rules)
    ensures DistinctRules(Untagged(rules, comment)) && forall r | r in Untagged(rules, comment) :: r in rules
  {
    if rules != [] {
      var front, last := rules[..|rules| - 1], rules[|rules| - 1];
      UntaggedIsValid(front, comment);
      var rest := Untagged(front, comment);
      forall i | 0 <= i < |rest| ensures rest[i].id != last.id { assert rest[i] in front; }
    }
  }
}

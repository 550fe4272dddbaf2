/** Own infrastructure, the inventory of authorized assets, and the check of a target. */
module Inventory {
  import opened Common
  import opened Text

  /** What Python's ipaddress says of an address. */
  datatype Address = Address(isLoopback: bool, isPrivate: bool, isLinkLocal: bool, isReserved: bool,
                             isMulticast: bool, isUnspecified: bool)

  /** The library calls: parsing an address, membership of an address in a block (false when
      either is malformed), and the order of timestamps as text. */
  datatype Library = Library(parse: string -> Option<Address>, inCidr: (string, string) -> bool,
                             before: (string, string) -> bool)

  datatype IpClass = NotIp | Loopback | Private | Reserved | Public

  /** `classify_ip`. */
  function ClassifyIp(lib: Library, value: string): IpClass {
    match lib.parse(value)
    case None => NotIp
    case Some(a) =>
      if a.isLoopback then Loopback
      else if a.isPrivate && !a.isLinkLocal then Private
      else if a.isLinkLocal || a.isReserved || a.isMulticast || a.isUnspecified then Reserved
      else Public
  }

  datatype Block = Block(cidr: string, isCritical: bool)

  /** `is_critical_ip`. */
  predicate IsCriticalIp(lib: Library, blocks: seq<Block>, ip: string) {
    lib.parse(ip).Some? && exists b :: b in blocks && b.isCritical && lib.inCidr(ip, b.cidr)
  }

  datatype Asset = Asset(assetId: string, hostname: string, ip: string, cidr: string, scope: string,
                         validFrom: string, validUntil: string, enabled: bool)

  /** `_within_validity`; an absent bound is empty. */
  predicate WithinValidity(lib: Library, now: string, a: Asset) {
    (a.validFrom != "" ==> !lib.before(now, a.validFrom)) && (a.validUntil != "" ==> !lib.before(a.validUntil, now))
  }

  /** `_scope_allows`. */
  predicate ScopeAllows(scope: string, action: string) {
    var text := Strip(scope);
    || text == "" || text == "*"
    || exists part :: part in SplitCommas(text) && Strip(part) != "" && (Strip(part) == action || Strip(part) == "*")
  }

  predicate Covers(lib: Library, a: Asset, target: string) {
    || target == a.assetId
    || (a.ip != "" && target == a.ip)
    || (a.hostname != "" && target == a.hostname)
    || (a.cidr != "" && ClassifyIp(lib, target) != NotIp && lib.inCidr(target, a.cidr))
  }

  predicate IsMatch(lib: Library, now: string, a: Asset, target: string, action: string) {
    a.enabled && Covers(lib, a, target) && WithinValidity(lib, now, a) && ScopeAllows(a.scope, action)
  }

  /** The assets that authorize an action on a target, in table order. */
  function Matches(lib: Library, now: string, assets: seq<Asset>, target: string, action: string): seq<Asset> {
    if assets == [] then []
    else
      var rest := Matches(lib, now, assets[..|assets| - 1], target, action);
      var last := assets[|assets| - 1];
      if IsMatch(lib, now, last, target, action) then rest + [last] else rest
  }

  /** `_find_matches`. */
  method FindMatches(lib: Library, now: string, assets: seq<Asset>, target: string, action: string) returns (out: seq<Asset>)
    ensures out == Matches(lib, now, assets, Strip(target), action)
  {
    var text := Strip(target);
    var isIp := ClassifyIp(lib, text) != NotIp;
    out := [];
    for i := 0 to |assets|
      invariant out == Matches(lib, now, assets[..i], text, action)
    {
      var row := assets[i];
      assert assets[..i + 1][..i] == assets[..i];
      if !row.enabled { continue; }
      var found := text == row.assetId || (row.ip != "" && text == row.ip) || (row.hostname != "" && text == row.hostname)
                   || (row.cidr != "" && isIp && lib.inCidr(text, row.cidr));
      if !found || !WithinValidity(lib, now, row) || !ScopeAllows(row.scope, action) { continue; }
      out := out + [row];
    }
    assert assets[..|assets|] == assets;
  }

  lemma {:induction false} MatchesIff(lib: Library, now: string, assets: seq<Asset>, target: string, action: string)
    ensures Matches(lib, now, assets, target, action) != [] <==>
            exists a :: a in assets && IsMatch(lib, now, a, target, action)
  {
    if assets != [] {
      var front, last := assets[..|assets| - 1], assets[|assets| - 1];
      MatchesIff(lib, now, front, target, action);
      assert forall a :: a in assets <==> a in front || a == last;
    }
  }

  // ---------- the check of a target ----------

  /** The tables and settings that the check reads. */
  datatype Tables = Tables(blocks: seq<Block>, assets: seq<Asset>, strict: bool, now: string)

  datatype TargetCheck = TargetCheck(authorized: bool, hardDenied: bool, matched: bool, assetId: Option<string>)

  /** Targets that no state-changing action may touch. */
  predicate IsForbidden(lib: Library, t: Tables, target: string) {
    var c := ClassifyIp(lib, target);
    (c != NotIp && IsCriticalIp(lib, t.blocks, target)) || c == Loopback || c == Reserved
  }

  /** `check_target`. */
  function CheckTarget(lib: Library, t: Tables, target: string, action: string, changesState: bool): TargetCheck {
    var text := Strip(target);
    if text == "" then TargetCheck(true, false, false, None)
    else if changesState && IsForbidden(lib, t, text) then TargetCheck(false, true, false, None)
    else
      var matches := Matches(lib, t.now, t.assets, text, action);
      if matches != [] then TargetCheck(true, false, true, Some(matches[0].assetId))
      else TargetCheck(!t.strict, false, false, None)
  }

  /** Which targets the locks cover, from the tables and the library alone: parsed addresses
      inside a block registered as critical, loopback and link-local ones, and reserved,
      multicast and unspecified ones unless the library also calls them private. */
  lemma LockedIff(lib: Library, t: Tables, target: string)
    ensures IsForbidden(lib, t, target) <==>
            lib.parse(target).Some? && var a := lib.parse(target).value;
              || (exists i :: 0 <= i < |t.blocks| && t.blocks[i].isCritical && lib.inCidr(target, t.blocks[i].cidr))
              || a.isLoopback || a.isLinkLocal
              || (!a.isPrivate && (a.isReserved || a.isMulticast || a.isUnspecified))
  {
    if IsCriticalIp(lib, t.blocks, target) {
      var b :| b in t.blocks && b.isCritical && lib.inCidr(target, b.cidr);
      var i :| 0 <= i < |t.blocks| && t.blocks[i] == b;
    }
    if i :| 0 <= i < |t.blocks| && t.blocks[i].isCritical && lib.inCidr(target, t.blocks[i].cidr) {
      assert t.blocks[i] in t.blocks;
    }
  }

  /** The asset names the target, by id, address, host name or block. */
  predicate Names(lib: Library, a: Asset, target: string) {
    || target == a.assetId
    || (target == a.ip && a.ip != "")
    || (target == a.hostname && a.hostname != "")
    || (lib.parse(target).Some? && a.cidr != "" && lib.inCidr(target, a.cidr))
  }

  /** The comma-separated scope lists the action or a star, or is empty or a star as a whole. */
  ghost predicate ListsAction(scope: string, action: string) {
    exists pre, text, post ::
      && scope == pre + text + post && IsBlank(pre) && IsBlank(post) && IsTight(text)
      && (text == "" || text == "*" || HasEntry(text, action) || HasEntry(text, "*"))
  }

  /** One of the parts between the commas of `text`, white space around it aside, is `entry`. */
  ghost predicate HasEntry(text: string, entry: string) {
    entry != "" && exists parts, k ::
      && parts != [] && JoinCommas(parts) == text && (forall i | 0 <= i < |parts| :: HasNoComma(parts[i]))
      && 0 <= k < |parts| && Strip(parts[k]) == entry
  }

  lemma HasEntryIff(text: string, entry: string)
    ensures HasEntry(text, entry) <==> entry != "" && exists part :: part in SplitCommas(text) && Strip(part) == entry
  {
    hide Strip, SplitCommas, JoinCommas;
    SplitJoins(text);
    if HasEntry(text, entry) {
      var parts, k :|
        && parts != [] && JoinCommas(parts) == text && (forall i | 0 <= i < |parts| :: HasNoComma(parts[i]))
        && 0 <= k < |parts| && Strip(parts[k]) == entry;
      SplitOfJoin(parts);
      assert parts[k] in SplitCommas(text);
    }
    if entry != "" && exists part :: part in SplitCommas(text) && Strip(part) == entry {
      var part :| part in SplitCommas(text) && Strip(part) == entry;
      var k :| 0 <= k < |SplitCommas(text)| && SplitCommas(text)[k] == part;
    }
  }

  lemma ScopeAllowsIff(scope: string, action: string)
    ensures ScopeAllows(scope, action) <==> ListsAction(scope, action)
  {
    hide Strip, SplitCommas, JoinCommas, HasEntry;
    HasEntryIff(Strip(scope), action);
    HasEntryIff(Strip(scope), "*");
    var pre, post := StripSplits(scope);
    if ListsAction(scope, action) {
      var pre', text, post' :|
        && scope == pre' + text + post' && IsBlank(pre') && IsBlank(post') && IsTight(text)
        && (text == "" || text == "*" || HasEntry(text, action) || HasEntry(text, "*"));
      StripIs(pre', text, post');
    }
  }

  /** Which assets authorize an action on a target: enabled ones that name it, within the two
      bounds of their validity, each inclusive and neither required, and whose scope lists it. */
  lemma MatchInPlainTerms(lib: Library, now: string, a: Asset, target: string, action: string)
    ensures IsMatch(lib, now, a, target, action) <==>
            && a.enabled && Names(lib, a, target) && ListsAction(a.scope, action)
            && (a.validFrom == "" || !lib.before(now, a.validFrom))
            && (a.validUntil == "" || !lib.before(a.validUntil, now))
  {
    hide ScopeAllows, ListsAction;
    ScopeAllowsIff(a.scope, action);
  }

  predicate IsFirstMatch(lib: Library, t: Tables, i: int, target: string, action: string) {
    && 0 <= i < |t.assets| && IsMatch(lib, t.now, t.assets[i], target, action)
    && forall j | 0 <= j < i :: !IsMatch(lib, t.now, t.assets[j], target, action)
  }

  /** The check of a target. Without one there is nothing to authorize. A lock denies hard,
      and only where the action changes state. Otherwise the first matching asset authorizes,
      and without any the strictness of the inventory decides. */
  lemma CheckTargetIff(lib: Library, t: Tables, target: string, action: string, changesState: bool)
    ensures var c, text := CheckTarget(lib, t, target, action, changesState), Strip(target);
            && (c.hardDenied <==> changesState && text != "" && IsForbidden(lib, t, text))
            && (c.matched <==> text != "" && !c.hardDenied && exists a :: a in t.assets && IsMatch(lib, t.now, a, text, action))
            && (c.authorized <==> text == "" || (!c.hardDenied && (!t.strict || c.matched)))
            && (!c.matched ==> c.assetId == None)
            && (c.matched ==> exists i :: IsFirstMatch(lib, t, i, text, action) && c.assetId == Some(t.assets[i].assetId))
  {
    hide IsMatch, IsForbidden;
    MatchesIff(lib, t.now, t.assets, Strip(target), action);
    if Matches(lib, t.now, t.assets, Strip(target), action) != [] {
      var i := FirstMatch(lib, t.now, t.assets, Strip(target), action);
      assert IsFirstMatch(lib, t, i, Strip(target), action);
    }
  }

  lemma {:induction false} FirstMatch(lib: Library, now: string, assets: seq<Asset>, target: string, action: string)
    returns (i: nat)
    requires Matches(lib, now, assets, target, action) != []
    ensures i < |assets| && Matches(lib, now, assets, target, action)[0] == assets[i]
    ensures IsMatch(lib, now, assets[i], target, action)
    ensures forall j | 0 <= j < i :: !IsMatch(lib, now, assets[j], target, action)
  {
    var front := assets[..|assets| - 1];
    if Matches(lib, now, front, target, action) != [] {
      i := FirstMatch(lib, now, front, target, action);
    } else {
      i := |assets| - 1;
      MatchesIff(lib, now, front, target, action);
      forall j | 0 <= j < i ensures !IsMatch(lib, now, assets[j], target, action) { assert assets[j] in front; }
    }
  }

  /** Which reserved addresses the hard lock really covers: not those that the library also
      calls private, because the private test comes first. */
  lemma ReservedIsLockedIff(lib: Library, value: string)
    requires lib.parse(value).Some?
    requires var a := lib.parse(value).value; a.isReserved || a.isMulticast || a.isUnspecified
    ensures var a := lib.parse(value).value;
            ClassifyIp(lib, value) in {Reserved, Loopback} <==> a.isLoopback || a.isLinkLocal || !a.isPrivate
  {}

  /** Which of those addresses a state-changing action may have as its target while the
      inventory is not strict: the ones that are also private and not critical. */
  lemma ReservedTargetIsAuthorizedIff(lib: Library, t: Tables, target: string, action: string)
    requires Strip(target) == target && target != "" && lib.parse(target).Some? && !t.strict
    requires var a := lib.parse(target).value; a.isReserved || a.isMulticast || a.isUnspecified
    ensures var a := lib.parse(target).value;
            CheckTarget(lib, t, target, action, true).authorized <==>
              a.isPrivate && !a.isLoopback && !a.isLinkLocal && !IsCriticalIp(lib, t.blocks, target)
  {
    CheckTargetIff(lib, t, target, action, true);
    ReservedIsLockedIff(lib, target);
  }

  const RESERVED_AND_PRIVATE := Address(false, true, false, true, false, false)

  /** 240.0.0.1, which Python calls both reserved and private, is an authorized target. */
  lemma ReservedTargetIsAuthorized(lib: Library, t: Tables, action: string)
    requires lib.parse("240.0.0.1") == Some(RESERVED_AND_PRIVATE)
    requires !t.strict && !IsCriticalIp(lib, t.blocks, "240.0.0.1")
    ensures CheckTarget(lib, t, "240.0.0.1", action, true).authorized
  {
    hide Strip, Lower, LowerChar, CheckTarget, IsCriticalIp;
    NormalText("240.0.0.1");
    ReservedTargetIsAuthorizedIff(lib, t, "240.0.0.1", action);
  }
}

/** The pending_actions table: its rows and the single statements that change it. */
module PendingActions {
  import opened Text

  datatype Status =
    | Pending
    | Executing      // 'em_execucao'
    | Executed       // 'executada'
    | Failed         // 'falhou'
    | InternalError  // 'erro_interno'
    | Cancelled      // 'cancelada'
    | Expired        // 'expirada'
    | Locked         // 'bloqueada_por_tentativas'

  datatype Row = Row(tool: string, args: string, code: string, failedAttempts: nat, status: Status, expiresAt: int)

  type Table = map<int, Row>

  const MAX_FAILED_ATTEMPTS := 5

  // ---------- comparing confirmation codes ----------

  predicate CodeMatches(given: string, stored: string) {
    given != "" && Lower(Strip(given)) == Lower(stored)
  }

  // ---------- one statement each ----------

  /** `create_pending_action`. */
  function Inserted(t: Table, id: int, tool: string, args: string, code: string, expiresAt: int): Table {
    t[id := Row(tool, args, code, 0, Pending, expiresAt)]
  }

  /** `increment_failed_attempts`. */
  function Incremented(t: Table, id: int): Table {
    if id in t then t[id := t[id].(failedAttempts := t[id].failedAttempts + 1)] else t
  }

  function AttemptsOf(t: Table, id: int): nat {
    if id in t then t[id].failedAttempts else 0
  }

  /** `resolve_pending_action`: an unconditional update. */
  function Resolved(t: Table, id: int, status: Status): Table {
    if id in t then t[id := t[id].(status := status)] else t
  }

  /** The WHERE clause of the claim. */
  predicate CanClaim(t: Table, id: int, now: int) {
    id in t && t[id].status == Pending && t[id].expiresAt > now
  }

  /** The claim: `UPDATE ... SET status = 'em_execucao' WHERE ...`. */
  function Claimed(t: Table, id: int, now: int): Table {
    if CanClaim(t, id, now) then t[id := t[id].(status := Executing)] else t
  }

  /** The sweep's SELECT. */
  predicate IsOverdue(t: Table, id: int, now: int) {
    id in t && t[id].status == Pending && t[id].expiresAt <= now
  }

  function Overdue(t: Table, now: int): set<int> {
    set id | id in t && IsOverdue(t, id, now)
  }

  // ---------- which codes match ----------

  /** The same character up to the case of its letter. */
  predicate SameLetter(a: char, b: char) {
    a == b || IsUpperOf(a, b) || IsUpperOf(b, a)
  }

  /** `mid` is the code up to the case of its letters. */
  predicate SpellsCode(mid: string, code: string) {
    |mid| == |code| && forall i | 0 <= i < |code| :: SameLetter(mid[i], code[i])
  }

  /** The code up to case, between white space, and something at all. */
  ghost predicate TypesCode(text: string, code: string) {
    text != "" && exists pre, mid, post ::
      text == pre + mid + post && IsBlank(pre) && IsBlank(post) && IsTight(mid) && SpellsCode(mid, code)
  }

  lemma LowerSpells(mid: string, code: string)
    ensures Lower(mid) == Lower(code) <==> SpellsCode(mid, code)
  {
    LowerLength(mid);
    LowerLength(code);
    if |mid| == |code| {
      forall i | 0 <= i < |mid| ensures Lower(mid)[i] == Lower(code)[i] <==> SameLetter(mid[i], code[i]) {
        LowerAt(mid, i);
        LowerAt(code, i);
      }
    }
  }

  /** Exactly which texts confirm a code. */
  lemma CodeMatchesIff(text: string, code: string)
    ensures CodeMatches(text, code) <==> TypesCode(text, code)
  {
    hide Strip, Lower, SpellsCode;
    if CodeMatches(text, code) {
      var pre, post := StripSplits(text);
      LowerSpells(Strip(text), code);
      assert text == pre + Strip(text) + post && SpellsCode(Strip(text), code);
    }
    if TypesCode(text, code) {
      var pre, mid, post :|
        text == pre + mid + post && IsBlank(pre) && IsBlank(post) && IsTight(mid) && SpellsCode(mid, code);
      StripIs(pre, mid, post);
      LowerSpells(mid, code);
    }
  }

  /** A code in its stored form: lower case, without white space. */
  predicate IsPlainCode(code: string) {
    forall i | 0 <= i < |code| :: !('A' <= code[i] <= 'Z') && !IsSpace(code[i])
  }

  /** For such a code the text is the code with some letters in upper case, between white space. */
  lemma PlainCodeMatchesIff(text: string, code: string)
    requires IsPlainCode(code) && code != ""
    ensures CodeMatches(text, code) <==>
            exists pre, mid, post ::
              && text == pre + mid + post && IsBlank(pre) && IsBlank(post) && |mid| == |code|
              && forall i | 0 <= i < |code| :: mid[i] == code[i] || IsUpperOf(mid[i], code[i])
  {
    hide CodeMatches;
    CodeMatchesIff(text, code);
    if TypesCode(text, code) {
      var pre, mid, post :|
        text == pre + mid + post && IsBlank(pre) && IsBlank(post) && IsTight(mid) && SpellsCode(mid, code);
      assert forall i | 0 <= i < |code| :: SameLetter(mid[i], code[i]);
    }
    if pre, mid, post :|
      && text == pre + mid + post && IsBlank(pre) && IsBlank(post) && |mid| == |code|
      && forall i | 0 <= i < |code| :: mid[i] == code[i] || IsUpperOf(mid[i], code[i])
    {
      assert SpellsCode(mid, code) && IsTight(mid);
    }
  }
}

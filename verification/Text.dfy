/** The few string operations of the program, on ASCII text. */
module Text {
  function LowerChar(c: char): char {
    if 'A' <= c <= 'Z' then c - 'A' + 'a' else c
  }

  /** `s.lower()`. */
  function Lower(s: string): string {
    if s == [] then [] else [LowerChar(s[0])] + Lower(s[1..])
  }

  predicate IsSpace(c: char) {
    c == ' ' || '\t' <= c <= '\r' || '\U{1c}' <= c <= '\U{1f}'
  }

  function StripLeft(s: string): string {
    if s != [] && IsSpace(s[0]) then StripLeft(s[1..]) else s
  }

  function StripRight(s: string): string {
    if s != [] && IsSpace(s[|s| - 1]) then StripRight(s[..|s| - 1]) else s
  }

  /** `s.strip()`. */
  function Strip(s: string): string {
    StripRight(StripLeft(s))
  }

  predicate EndsWith(s: string, suffix: string) {
    |suffix| <= |s| && s[|s| - |suffix|..] == suffix
  }

  /** `s.split(",")`. */
  function SplitCommas(s: string): seq<string> {
    if s == [] then [[]]
    else
      var rest := SplitCommas(s[1..]);
      if s[0] == ',' then [[]] + rest
      else if rest == [] then [[s[0]]]
      else [[s[0]] + rest[0]] + rest[1..]
  }

  lemma {:induction false} LowerLeavesLowerCase(s: string)
    requires forall i | 0 <= i < |s| :: !('A' <= s[i] <= 'Z')
    ensures Lower(s) == s
  {
    if s != [] {
      LowerLeavesLowerCase(s[1..]);
      assert s == [s[0]] + s[1..];
    }
  }

  /** Lower-case text without outer white space is its own normal form. */
  lemma NormalText(s: string)
    requires forall i | 0 <= i < |s| :: !('A' <= s[i] <= 'Z') && !IsSpace(s[i])
    ensures Strip(s) == s && Lower(Strip(s)) == s
  {
    LowerLeavesLowerCase(s);
  }

  // ---------- what the operations mean ----------

  /** The ten ASCII characters that stripping removes. */
  lemma SpaceIff(c: char)
    ensures IsSpace(c) <==>
            c in {' ', '\t', '\n', '\U{0b}', '\U{0c}', '\r', '\U{1c}', '\U{1d}', '\U{1e}', '\U{1f}'}
  {}

  /** `u` is the upper-case letter of the lower-case letter `c`. */
  predicate IsUpperOf(u: char, c: char) {
    'a' <= c <= 'z' && u as int + 32 == c as int
  }

  /** Lower-casing works letter by letter. */
  lemma {:induction false} LowerAt(s: string, i: nat)
    requires i < |s|
    ensures |Lower(s)| == |s|
    ensures if 'A' <= s[i] <= 'Z' then IsUpperOf(s[i], Lower(s)[i]) else Lower(s)[i] == s[i]
  {
    LowerLength(s);
    if i > 0 { LowerAt(s[1..], i - 1); }
  }

  lemma {:induction false} LowerLength(s: string)
    ensures |Lower(s)| == |s|
  {
    if s != [] { LowerLength(s[1..]); }
  }

  predicate IsBlank(s: string) {
    forall i | 0 <= i < |s| :: IsSpace(s[i])
  }

  /** No white space at either end. */
  predicate IsTight(s: string) {
    s != "" ==> !IsSpace(s[0]) && !IsSpace(s[|s| - 1])
  }

  lemma {:induction false} StripLeftSplits(s: string) returns (pre: string)
    ensures s == pre + StripLeft(s) && IsBlank(pre) && (StripLeft(s) != "" ==> !IsSpace(StripLeft(s)[0]))
  {
    pre := "";
    if s != [] && IsSpace(s[0]) {
      var rest := StripLeftSplits(s[1..]);
      pre := [s[0]] + rest;
      assert s == [s[0]] + s[1..] == pre + StripLeft(s);
    }
  }

  lemma {:induction false} StripRightSplits(s: string) returns (post: string)
    ensures s == StripRight(s) + post && IsBlank(post)
    ensures StripRight(s) != "" ==> !IsSpace(StripRight(s)[|StripRight(s)| - 1]) && StripRight(s)[0] == s[0]
  {
    post := "";
    if s != [] && IsSpace(s[|s| - 1]) {
      var rest := StripRightSplits(s[..|s| - 1]);
      post := rest + [s[|s| - 1]];
      assert s == s[..|s| - 1] + [s[|s| - 1]] == StripRight(s) + post;
    }
  }

  /** Stripping cuts the text into white space, a middle without any at its ends, and white
      space. */
  lemma StripSplits(s: string) returns (pre: string, post: string)
    ensures s == pre + Strip(s) + post && IsBlank(pre) && IsBlank(post) && IsTight(Strip(s))
  {
    pre := StripLeftSplits(s);
    post := StripRightSplits(StripLeft(s));
    assert s == pre + (Strip(s) + post);
  }

  lemma {:induction false} StripLeftDrops(pre: string, rest: string)
    requires IsBlank(pre) && (rest != "" ==> !IsSpace(rest[0]))
    ensures StripLeft(pre + rest) == rest
  {
    if pre == "" {
      assert pre + rest == rest;
    } else {
      assert (pre + rest)[1..] == pre[1..] + rest;
      StripLeftDrops(pre[1..], rest);
    }
  }

  lemma {:induction false} StripRightDrops(front: string, post: string)
    requires IsBlank(post) && (front != "" ==> !IsSpace(front[|front| - 1]))
    ensures StripRight(front + post) == front
  {
    if post == "" {
      assert front + post == front;
    } else {
      assert (front + post)[..|front + post| - 1] == front + post[..|post| - 1];
      StripRightDrops(front, post[..|post| - 1]);
    }
  }

  lemma {:induction false} StripLeftOfBlank(s: string)
    requires IsBlank(s)
    ensures StripLeft(s) == ""
  {
    if s != "" { StripLeftOfBlank(s[1..]); }
  }

  /** And that cut is the only one. */
  lemma StripIs(pre: string, mid: string, post: string)
    requires IsBlank(pre) && IsBlank(post) && IsTight(mid)
    ensures Strip(pre + mid + post) == mid
  {
    if mid == "" {
      assert pre + mid + post == pre + post;
      StripLeftOfBlank(pre + post);
    } else {
      assert pre + mid + post == pre + (mid + post);
      StripLeftDrops(pre, mid + post);
      StripRightDrops(mid, post);
    }
  }

  lemma EndsWithIff(s: string, suffix: string)
    ensures EndsWith(s, suffix) <==> exists front :: s == front + suffix
  {
    if EndsWith(s, suffix) { assert s == s[..|s| - |suffix|] + suffix; }
  }

  predicate HasNoComma(s: string) {
    forall i | 0 <= i < |s| :: s[i] != ','
  }

  /** `",".join(parts)`. */
  function JoinCommas(parts: seq<string>): string {
    if parts == [] then ""
    else if |parts| == 1 then parts[0]
    else parts[0] + "," + JoinCommas(parts[1..])
  }

  lemma {:induction false} JoinNonEmpty(first: string, rest: seq<string>)
    requires rest != []
    ensures JoinCommas([first] + rest) == first + "," + JoinCommas(rest)
  {
    assert ([first] + rest)[1..] == rest;
  }

  lemma JoinOne(part: string)
    ensures JoinCommas([part]) == part
  {}

  lemma JoinGrows(c: char, first: string, rest: seq<string>)
    ensures JoinCommas([[c] + first] + rest) == [c] + JoinCommas([first] + rest)
  {
    hide JoinCommas;
    if rest == [] {
      assert [first] + rest == [first] && [[c] + first] + rest == [[c] + first];
      JoinOne(first);
      JoinOne([c] + first);
    } else {
      JoinNonEmpty([c] + first, rest);
      JoinNonEmpty(first, rest);
    }
  }

  lemma SplitStep(s: string)
    requires s != ""
    ensures SplitCommas(s[1..]) != [] && SplitCommas(s) != []
    ensures var rest := SplitCommas(s[1..]);
            SplitCommas(s) == if s[0] == ',' then [""] + rest else [[s[0]] + rest[0]] + rest[1..]
  {}

  /** Splitting at commas is undone by joining, and leaves parts without commas. */
  lemma {:induction false} SplitJoins(s: string)
    ensures SplitCommas(s) != [] && JoinCommas(SplitCommas(s)) == s
    ensures forall i | 0 <= i < |SplitCommas(s)| :: HasNoComma(SplitCommas(s)[i])
  {
    hide SplitCommas, JoinCommas;
    if s == "" {
      SplitOfEmpty();
    } else {
      SplitStep(s);
      SplitJoins(s[1..]);
      var rest := SplitCommas(s[1..]);
      if s[0] == ',' { JoinNonEmpty("", rest); } else {
        assert rest == [rest[0]] + rest[1..];
        JoinGrows(s[0], rest[0], rest[1..]);
      }
      assert s == [s[0]] + s[1..];
    }
  }

  lemma {:induction false} SplitOfPart(part: string)
    requires HasNoComma(part)
    ensures SplitCommas(part) == [part]
  {
    if part != "" {
      SplitOfPart(part[1..]);
      assert part == [part[0]] + part[1..];
    }
  }

  lemma {:induction false} SplitAfterPart(part: string, rest: string)
    requires HasNoComma(part)
    ensures SplitCommas(part + "," + rest) == [part] + SplitCommas(rest)
  {
    var text := part + "," + rest;
    SplitStep(text);
    if part == "" {
      assert text[1..] == rest;
    } else {
      SplitAfterPart(part[1..], rest);
      assert text[1..] == part[1..] + "," + rest;
      assert part == [part[0]] + part[1..];
    }
  }

  /** Parts without commas are what splitting their join gives back. */
  lemma {:induction false} SplitOfJoin(parts: seq<string>)
    requires parts != [] && forall i | 0 <= i < |parts| :: HasNoComma(parts[i])
    ensures SplitCommas(JoinCommas(parts)) == parts
  {
    hide SplitCommas;
    if |parts| == 1 {
      SplitOfPart(parts[0]);
    } else {
      SplitOfJoin(parts[1..]);
      SplitAfterPart(parts[0], JoinCommas(parts[1..]));
    }
  }

  lemma SplitOfEmpty()
    ensures SplitCommas("") == [""] && JoinCommas([""]) == ""
  {}
}

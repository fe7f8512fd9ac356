/** Kind selectors of the episodic memory store (internal/episodic/policy.go, kind.go) and their
    matching (internal/grpc/server.go).  A selector is empty (all kinds), a family, or an exact
    "family/version" name. */
module KindSelector {
  datatype KindIntersection = KindIntersection(selector: string, empty: bool)

  // ---- Strings ----------------------------------------------------------------------------------

  predicate IsSpace(c: char) {
    || '\t' <= c <= '\r' || c == ' '
    || c in {'\U{85}', '\U{A0}', '\U{1680}', '\U{2028}', '\U{2029}', '\U{202F}', '\U{205F}', '\U{3000}'}
    || '\U{2000}' <= c <= '\U{200A}'
  }

  function TrimSpace(s: string): (r: string)
    ensures r != [] ==> !IsSpace(r[0]) && !IsSpace(r[|r| - 1])
    ensures r == s || (s != [] && (IsSpace(s[0]) || IsSpace(s[|s| - 1])))
  {
    if s != [] && IsSpace(s[0]) then TrimSpace(s[1..])
    else if s != [] && IsSpace(s[|s| - 1]) then TrimSpace(s[..|s| - 1])
    else s
  }

  /** The position of the first slash, or the length. */
  function SlashIndex(s: string): (i: nat)
    ensures i <= |s| && (i < |s| ==> s[i] == '/') && forall j | 0 <= j < i :: s[j] != '/'
  {
    if s == [] || s[0] == '/' then 0 else 1 + SlashIndex(s[1..])
  }

  predicate HasSlash(s: string) {
    SlashIndex(s) < |s|
  }

  function Family(s: string): string {
    s[..SlashIndex(s)]
  }

  // ---- Validation -------------------------------------------------------------------------------

  predicate IsLower(c: char) {
    'a' <= c <= 'z'
  }

  predicate IsValidComponent(s: string) {
    && 0 < |s| <= 63
    && IsLower(s[0])
    && forall i | 0 <= i < |s| :: IsLower(s[i]) || '0' <= s[i] <= '9' || s[i] == '-'
  }

  /** "family/version" with one slash and two valid components. */
  predicate IsCanonicalKind(name: string) {
    HasSlash(name) && IsValidComponent(Family(name)) && IsValidComponent(name[SlashIndex(name) + 1..])
  }

  /** ValidateKindSelector accepts the selector. */
  predicate IsValidSelector(selector: string) {
    var sel := TrimSpace(selector);
    sel == "" || (if HasSlash(sel) then IsCanonicalKind(sel) else IsValidComponent(sel))
  }

  // ---- Matching and intersection -----------------------------------------------------------------

  predicate MatchesKindSelector(kind: string, sel: string) {
    sel == "" || (if HasSlash(sel) then kind == sel else sel + "/" <= kind)
  }

  function IntersectKindSelectors(caller: string, policy: string): KindIntersection {
    var callerSel, policySel := TrimSpace(caller), TrimSpace(policy);
    if policySel == "" then KindIntersection(callerSel, false)
    else if callerSel == "" then KindIntersection(policySel, false)
    else if callerSel == policySel then KindIntersection(callerSel, false)
    else if HasSlash(callerSel) && HasSlash(policySel) then KindIntersection("", true)
    else if HasSlash(callerSel) then
      if Family(callerSel) == policySel then KindIntersection(callerSel, false) else KindIntersection("", true)
    else if HasSlash(policySel) then
      if Family(policySel) == callerSel then KindIntersection(policySel, false) else KindIntersection("", true)
    else KindIntersection("", true)
  }

  // ---- Meaning --------------------------------------------------------------------------------------

  /** The canonical kinds that an intersection lets through. */
  ghost predicate Accepts(r: KindIntersection, kind: string) {
    !r.empty && MatchesKindSelector(kind, r.selector)
  }

  ghost predicate Selects(selector: string, kind: string) {
    MatchesKindSelector(kind, TrimSpace(selector))
  }

  ghost predicate Component(s: string) {
    && 1 <= |s| <= 63 && 'a' <= s[0] <= 'z'
    && forall c | c in s :: 'a' <= c <= 'z' || '0' <= c <= '9' || c == '-'
  }

  /** A canonical kind is a family and a version of 1 to 63 lower-case letters, digits and hyphens, each starting with a
      letter, around its only slash. */
  lemma KindMeaning(name: string)
    ensures IsCanonicalKind(name) <==> exists i :: 0 <= i < |name| && name[i] == '/' && Component(name[..i]) && Component(name[i + 1..])
  {
    var i := SlashIndex(name);
    ComponentMeaning(name[..i]);
    if i < |name| {
      ComponentMeaning(name[i + 1..]);
    }
    forall j | 0 <= j < |name| && name[j] == '/' && Component(name[..j]) ensures j == i {
      ComponentMeaning(name[..j]);
      NoSlash(name[..j]);
      forall k | 0 <= k < j ensures name[k] != '/' {
        FirstSlash(name[..j], k);
        assert name[..j][k] == name[k];
      }
    }
  }

  lemma ComponentMeaning(s: string)
    ensures Component(s) <==> IsValidComponent(s)
  {
    forall i | 0 <= i < |s| ensures s[i] in s {}
  }

  lemma NoSlash(s: string)
    requires IsValidComponent(s)
    ensures !HasSlash(s)
  {
    assert forall i | 0 <= i < |s| :: s[i] != '/';
  }

  /** A family selector matches the canonical kinds of that family. */
  lemma FamilyMatches(kind: string, family: string)
    requires IsCanonicalKind(kind) && family != "" && !HasSlash(family)
    ensures MatchesKindSelector(kind, family) <==> Family(kind) == family
  {
    var i := SlashIndex(kind);
    if family + "/" <= kind {
      assert kind[|family|] == (family + "/")[|family|];
      forall j | 0 <= j < |family| ensures kind[j] != '/' {
        assert kind[j] == (family + "/")[j] == family[j];
        FirstSlash(family, j);
      }
      assert i == |family|;
      assert Family(kind) == family;
    }
    if Family(kind) == family {
      assert family + "/" == kind[..i + 1];
    }
  }

  lemma FirstSlash(s: string, j: nat)
    requires !HasSlash(s) && j < |s|
    ensures s[j] != '/'
  {
  }

  ghost predicate AllSpace(s: string) {
    forall i | 0 <= i < |s| :: IsSpace(s[i])
  }

  /** Trimming takes away white space at both ends, and all of it. */
  lemma {:induction false} TrimMeaning(s: string) returns (before: string, after: string)
    ensures s == before + TrimSpace(s) + after && AllSpace(before) && AllSpace(after)
    ensures TrimSpace(s) != "" ==> !IsSpace(TrimSpace(s)[0]) && !IsSpace(TrimSpace(s)[|TrimSpace(s)| - 1])
    decreases |s|
  {
    before, after := "", "";
    hide IsSpace;
    if s != [] && IsSpace(s[0]) {
      before, after := TrimMeaning(s[1..]);
      Widened(s, s[0], before, TrimSpace(s[1..]), after);
      before := [s[0]] + before;
    } else if s != [] && IsSpace(s[|s| - 1]) {
      var last := s[|s| - 1];
      before, after := TrimMeaning(s[..|s| - 1]);
      Widened(s, last, before, TrimSpace(s[..|s| - 1]), after);
      after := after + [last];
    } else {
      assert "" + s + "" == s;
    }
  }

  lemma Widened(s: string, c: char, before: string, middle: string, after: string)
    requires s != []
    ensures s[0] == c && s[1..] == before + middle + after ==> s == [c] + before + middle + after
    ensures s[|s| - 1] == c && s[..|s| - 1] == before + middle + after ==> s == before + middle + (after + [c])
  {
    if s[0] == c && s[1..] == before + middle + after {
      assert s == [c] + s[1..];
    }
    if s[|s| - 1] == c && s[..|s| - 1] == before + middle + after {
      assert s == s[..|s| - 1] + [c];
    }
  }

  /** White space, by code point. */
  lemma SpaceMeaning(c: char)
    ensures IsSpace(c) <==>
            || c as int in {9, 10, 11, 12, 13, 32, 133, 160, 5760, 8232, 8233, 8239, 8287, 12288}
            || 8192 <= c as int <= 8202
  {
  }

  lemma {:induction false} TrimKeepsWords(s: string)
    requires s == "" || (!IsSpace(s[0]) && !IsSpace(s[|s| - 1]))
    ensures TrimSpace(s) == s
  {
  }

  /** The intersection accepts exactly the canonical kinds that both selectors accept. */
  lemma IntersectionMeaning(caller: string, policy: string, kind: string)
    requires IsValidSelector(caller) && IsValidSelector(policy) && IsCanonicalKind(kind)
    ensures Accepts(IntersectKindSelectors(caller, policy), kind) <==> Selects(caller, kind) && Selects(policy, kind)
  {
    var c, p := TrimSpace(caller), TrimSpace(policy);
    if c != "" && !HasSlash(c) {
      FamilyMatches(kind, c);
      if HasSlash(p) { FamilyMatches(p, c); }
    }
    if p != "" && !HasSlash(p) {
      FamilyMatches(kind, p);
      if HasSlash(c) { FamilyMatches(c, p); }
    }
  }

  /** Some canonical kind of a valid family. */
  lemma FamilyHasKind(family: string) returns (kind: string)
    requires IsValidComponent(family)
    ensures IsCanonicalKind(kind) && MatchesKindSelector(kind, family)
  {
    NoSlash(family);
    kind := family + "/v";
    forall j | 0 <= j < |family| ensures kind[j] != '/' {
      assert kind[j] == family[j];
      FirstSlash(family, j);
    }
    assert kind[|family|] == '/';
    assert SlashIndex(kind) == |family|;
    assert kind[|family| + 1..] == "v";
  }

  /** A valid selector accepts some canonical kind. */
  lemma SelectorHasKind(sel: string) returns (kind: string)
    requires sel == "" || (if HasSlash(sel) then IsCanonicalKind(sel) else IsValidComponent(sel))
    ensures IsCanonicalKind(kind) && MatchesKindSelector(kind, sel)
  {
    if sel == "" {
      kind := FamilyHasKind("a");
    } else if HasSlash(sel) {
      kind := sel;
    } else {
      kind := FamilyHasKind(sel);
    }
  }

  /** The intersection is reported empty exactly when no canonical kind satisfies both selectors. */
  lemma EmptyMeaning(caller: string, policy: string)
    requires IsValidSelector(caller) && IsValidSelector(policy)
    ensures IntersectKindSelectors(caller, policy).empty <==>
            !exists kind :: IsCanonicalKind(kind) && Selects(caller, kind) && Selects(policy, kind)
  {
    var r := IntersectKindSelectors(caller, policy);
    if r.empty {
      forall kind | IsCanonicalKind(kind) ensures !(Selects(caller, kind) && Selects(policy, kind)) {
        IntersectionMeaning(caller, policy, kind);
      }
    } else {
      var kind := SelectorHasKind(r.selector);
      IntersectionMeaning(caller, policy, kind);
    }
  }

  /** The effective selector is valid and trimmed, so that it can be intersected again. */
  lemma IntersectionValid(caller: string, policy: string)
    requires IsValidSelector(caller) && IsValidSelector(policy)
    ensures IsValidSelector(IntersectKindSelectors(caller, policy).selector)
    ensures var sel := IntersectKindSelectors(caller, policy).selector; TrimSpace(sel) == sel
  {
    TrimKeepsWords(TrimSpace(caller));
    TrimKeepsWords(TrimSpace(policy));
    TrimKeepsWords("");
  }

  /** Narrowing by a third selector. */
  ghost predicate AcceptsBoth(r: KindIntersection, selector: string, kind: string) {
    !r.empty && Accepts(IntersectKindSelectors(r.selector, selector), kind)
  }

  /** In meaning, intersection is commutative, associative and idempotent, and it never broadens. */
  lemma IntersectionAlgebra(a: string, b: string, c: string, kind: string)
    requires IsValidSelector(a) && IsValidSelector(b) && IsValidSelector(c) && IsCanonicalKind(kind)
    ensures Accepts(IntersectKindSelectors(a, b), kind) <==> Accepts(IntersectKindSelectors(b, a), kind)
    ensures IntersectKindSelectors(a, b).empty <==> IntersectKindSelectors(b, a).empty
    ensures AcceptsBoth(IntersectKindSelectors(a, b), c, kind) <==> AcceptsBoth(IntersectKindSelectors(b, c), a, kind)
    ensures Accepts(IntersectKindSelectors(a, a), kind) <==> Selects(a, kind)
    ensures Accepts(IntersectKindSelectors(a, b), kind) ==> Selects(a, kind)
  {
    IntersectionMeaning(a, b, kind);
    IntersectionMeaning(b, a, kind);
    IntersectionMeaning(b, c, kind);
    IntersectionMeaning(a, a, kind);
    EmptyMeaning(a, b);
    EmptyMeaning(b, a);
    IntersectionValid(a, b);
    IntersectionValid(b, c);
    IntersectionMeaning(IntersectKindSelectors(a, b).selector, c, kind);
    IntersectionMeaning(IntersectKindSelectors(b, c).selector, a, kind);
  }
}

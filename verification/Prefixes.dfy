/** Keys under a configured root: resolving a list prefix, projecting listed keys, joining keys. */
module Prefixes {
  import opened Foundation

  // ---------------------------------------------------------------- the operations

  function TrimStart(s: bytes): (t: bytes)
    ensures t == [] || t[0] != SLASH
  {
    if s != [] && s[0] == SLASH then TrimStart(s[1..]) else s
  }

  function TrimEnd(s: bytes): (t: bytes)
    ensures t == [] || t[|t| - 1] != SLASH
  {
    if s != [] && s[|s| - 1] == SLASH then TrimEnd(s[..|s| - 1]) else s
  }

  function NormalizePrefix(prefix: Option<bytes>): Option<bytes> {
    if prefix.Some? && TrimEnd(TrimStart(prefix.value)) != [] then Some(TrimEnd(TrimStart(prefix.value))) else None
  }

  datatype RootError = RootSetTwice

  /** The root comes from the URI path or from the configuration, never from both. */
  function ResolveRootPrefix(uriPath: bytes, configured: Option<bytes>): Result<Option<bytes>, RootError> {
    match (NormalizePrefix(Some(uriPath)), NormalizePrefix(configured))
    case (Some(_), Some(_)) => Err(RootSetTwice)
    case (Some(r), None) => Ok(Some(r))
    case (None, configuredRoot) => Ok(configuredRoot)
  }

  function ListRootBoundary(root: Option<bytes>): Option<bytes> {
    if root.Some? && root.value != [] then Some(root.value + [SLASH]) else None
  }

  predicate IsAlpha(b: byte) {
    65 <= b <= 90 || 97 <= b <= 122
  }

  predicate IsSchemeByte(b: byte) {
    IsAlpha(b) || 48 <= b <= 57 || b == 43 || b == 45 || b == 46
  }

  const SCHEME_END: bytes := [58, SLASH, SLASH]

  /** The scheme rule of RFC 3986, section 3.1. */
  predicate IsScheme(s: bytes) {
    s != [] && IsAlpha(s[0]) && forall i | 0 <= i < |s| :: IsSchemeByte(s[i])
  }

  predicate OccursAt(pattern: bytes, s: bytes, i: nat) {
    i + |pattern| <= |s| && s[i..i + |pattern|] == pattern
  }

  /** Where `pattern` first occurs in `s` at or after `from`. */
  function Find(pattern: bytes, s: bytes, from: nat): (at: Option<nat>)
    requires from <= |s|
    ensures at.Some? ==> from <= at.value && OccursAt(pattern, s, at.value)
    ensures forall i: nat | from <= i && OccursAt(pattern, s, i) :: at.Some? && at.value <= i
    decreases |s| - from
  {
    if OccursAt(pattern, s, from) then Some(from)
    else if from == |s| then None
    else Find(pattern, s, from + 1)
  }

  predicate StartsWithUriScheme(s: bytes) {
    var at := Find(SCHEME_END, s, 0);
    at.Some? && IsScheme(s[..at.value])
  }

  datatype ListError = PrefixNotRelative | OutsideBoundary

  predicate ProviderRelative(prefix: bytes) {
    (prefix == [] || prefix[0] != SLASH) && !StartsWithUriScheme(prefix)
  }

  function ResolveListPrefix(root: Option<bytes>, caller: Option<bytes>): Result<Option<bytes>, ListError> {
    if caller.Some? && !ProviderRelative(caller.value) then Err(PrefixNotRelative) else
    var callerPrefix := if caller == Some([]) then None else caller;
    match (ListRootBoundary(root), callerPrefix)
    case (Some(boundary), Some(prefix)) => Ok(Some(boundary + prefix))
    case (Some(boundary), None) => Ok(Some(boundary))
    case (None, prefix) => Ok(prefix)
  }

  function StripRootPrefix(root: Option<bytes>, key: bytes): Result<bytes, ListError> {
    match ListRootBoundary(root)
    case None => Ok(key)
    case Some(boundary) => if boundary <= key then Ok(key[|boundary|..]) else Err(OutsideBoundary)
  }

  function JoinKey(root: Option<bytes>, key: bytes): bytes {
    var relative := TrimStart(key);
    match ListRootBoundary(root)
    case Some(boundary) => if relative != [] then boundary + relative else root.value
    case None => relative
  }

  // ---------------------------------------------------------------- normalization

  predicate Slashes(s: bytes) {
    forall i | 0 <= i < |s| :: s[i] == SLASH
  }

  predicate StartsWithSlash(s: bytes) {
    s != [] && s[0] == SLASH
  }

  predicate Trimmed(s: bytes) {
    s == [] || (s[0] != SLASH && s[|s| - 1] != SLASH)
  }

  lemma {:induction false} TrimStartDropsSlashes(s: bytes) returns (front: bytes)
    ensures Slashes(front) && s == front + TrimStart(s)
  {
    front := [];
    if s != [] && s[0] == SLASH {
      var rest := TrimStartDropsSlashes(s[1..]);
      front := [SLASH] + rest;
    }
  }

  lemma {:induction false} TrimEndDropsSlashes(s: bytes) returns (back: bytes)
    ensures Slashes(back) && s == TrimEnd(s) + back
  {
    back := [];
    if s != [] && s[|s| - 1] == SLASH {
      var rest := TrimEndDropsSlashes(s[..|s| - 1]);
      back := rest + [SLASH];
      assert s == s[..|s| - 1] + [SLASH];
    }
  }

  lemma {:induction false} TrimStartSkips(front: bytes, rest: bytes)
    requires Slashes(front) && !StartsWithSlash(rest)
    ensures TrimStart(front + rest) == rest
  {
    if front == [] {
      assert front + rest == rest;
    } else {
      assert (front + rest)[1..] == front[1..] + rest;
      TrimStartSkips(front[1..], rest);
    }
  }

  lemma {:induction false} TrimEndSkips(rest: bytes, back: bytes)
    requires Slashes(back) && (rest == [] || rest[|rest| - 1] != SLASH)
    ensures TrimEnd(rest + back) == rest
  {
    if back == [] {
      assert rest + back == rest;
    } else {
      assert (rest + back)[..|rest + back| - 1] == rest + back[..|back| - 1];
      TrimEndSkips(rest, back[..|back| - 1]);
    }
  }

  /** Trimming finds the one slash-free-ended core of a value. */
  lemma TrimFindsCore(front: bytes, core: bytes, back: bytes)
    requires Slashes(front) && Slashes(back) && Trimmed(core) && core != []
    ensures TrimEnd(TrimStart(front + core + back)) == core
  {
    hide TrimStart, TrimEnd;
    assert front + core + back == front + (core + back);
    TrimStartSkips(front, core + back);
    TrimEndSkips(core, back);
  }

  lemma {:induction false} SlashesTrimAway(s: bytes)
    requires Slashes(s)
    ensures TrimStart(s) == []
  {
    if s != [] { SlashesTrimAway(s[1..]); }
  }

  /** `core` is what is left of `value` when the slashes at both ends are taken away. */
  ghost predicate CoreOf(core: bytes, value: bytes) {
    exists front: bytes, back: bytes :: Slashes(front) && Slashes(back) && value == front + core + back
  }

  /** A root is present exactly when the value has a core, which the root then is. */
  lemma NormalizeMeaning(value: bytes, core: bytes)
    ensures NormalizePrefix(Some(value)) == Some(core) <==> core != [] && Trimmed(core) && CoreOf(core, value)
    ensures NormalizePrefix(Some(value)) == None <==> Slashes(value)
  {
    hide TrimStart, TrimEnd;
    var front := TrimStartDropsSlashes(value);
    var back := TrimEndDropsSlashes(TrimStart(value));
    var mid := TrimEnd(TrimStart(value));
    assert value == front + mid + back;
    if mid != [] {
      assert mid[0] == TrimStart(value)[0];
      assert value[|front|] == mid[0];
    }
    if Slashes(value) { SlashesTrimAway(value); }
    if core != [] && Trimmed(core) && CoreOf(core, value) {
      var f: bytes, b: bytes :| Slashes(f) && Slashes(b) && value == f + core + b;
      TrimFindsCore(f, core, b);
    }
  }

  /** A root that is set at all is trimmed and non-empty, and came from exactly one of its two places. */
  lemma RootHasOneSource(uriPath: bytes, configured: Option<bytes>)
    ensures var r := ResolveRootPrefix(uriPath, configured);
      && (r.Err? <==> !Slashes(uriPath) && configured.Some? && !Slashes(configured.value))
      && (r == Ok(None) <==> Slashes(uriPath) && (configured.Some? ==> Slashes(configured.value)))
      && (r.Ok? && r.value.Some? ==>
            && r.value.value != [] && Trimmed(r.value.value)
            && (CoreOf(r.value.value, uriPath) || (configured.Some? && CoreOf(r.value.value, configured.value))))
  {
    hide CoreOf, Slashes, Trimmed;
    var root := NormalizePrefix(Some(uriPath));
    NormalizeMeaning(uriPath, if root.Some? then root.value else []);
    if configured.Some? {
      var own := NormalizePrefix(configured);
      NormalizeMeaning(configured.value, if own.Some? then own.value else []);
    }
  }

  // ---------------------------------------------------------------- get and list agree

  /** A listed key is found again by its projection iff that is proper and has no slash in front. */
  lemma JoinAfterStrip(root: Option<bytes>, key: bytes)
    requires StripRootPrefix(root, key).Ok?
    ensures var projected := StripRootPrefix(root, key).value;
      JoinKey(root, projected) == key
      <==> !StartsWithSlash(projected) && (projected == [] ==> ListRootBoundary(root) == None)
  {
    var projected := StripRootPrefix(root, key).value;
    var slashes := TrimStartDropsSlashes(projected);
    if ListRootBoundary(root).Some? {
      assert key == ListRootBoundary(root).value + projected;
      assert |projected| == |slashes| + |TrimStart(projected)|;
    } else {
      assert |key| == |slashes| + |TrimStart(key)|;
    }
  }

  /** A joined key projects to the caller's key without leading slashes, unless it is the bare root. */
  lemma StripAfterJoin(root: Option<bytes>, key: bytes)
    ensures StripRootPrefix(root, JoinKey(root, key)) ==
            if ListRootBoundary(root).Some? && Slashes(key) then Err(OutsideBoundary) else Ok(TrimStart(key))
  {
    var front := TrimStartDropsSlashes(key);
    if Slashes(key) { SlashesTrimAway(key); }
    assert TrimStart(key) == [] ==> key == front;
  }

  /** Two relative keys name one object exactly when they differ only in leading slashes. */
  lemma KeysCollideIffTrimmedEqual(root: Option<bytes>, a: bytes, b: bytes)
    ensures JoinKey(root, a) == JoinKey(root, b) <==> TrimStart(a) == TrimStart(b)
  {
    if ListRootBoundary(root).Some? {
      var boundary := ListRootBoundary(root).value;
      if JoinKey(root, a) == JoinKey(root, b) && TrimStart(a) != [] && TrimStart(b) != [] {
        assert JoinKey(root, a)[|boundary|..] == TrimStart(a);
        assert JoinKey(root, b)[|boundary|..] == TrimStart(b);
      }
    }
  }

  /** The provider lists by the resolved prefix exactly the keys that project under the caller's. */
  lemma ResolvedPrefixMatches(root: Option<bytes>, caller: Option<bytes>, key: bytes)
    requires ResolveListPrefix(root, caller).Ok?
    ensures var resolved := ResolveListPrefix(root, caller).value;
      (resolved.Some? ==> resolved.value <= key)
      <==> StripRootPrefix(root, key).Ok? && (caller.Some? ==> caller.value <= StripRootPrefix(root, key).value)
  {
    var resolved := ResolveListPrefix(root, caller).value;
    if ListRootBoundary(root).Some? {
      var boundary := ListRootBoundary(root).value;
      if boundary <= key && caller.Some? {
        var prefix := caller.value;
        assert key == boundary + key[|boundary|..];
        if prefix <= key[|boundary|..] { assert boundary + prefix <= key; }
        if boundary + prefix <= key { assert key[|boundary|..][..|prefix|] == prefix; }
      }
      if resolved.value <= key {
        assert boundary <= resolved.value;
      }
    }
  }

  /** What is refused as a list prefix: an absolute path, or anything that begins like a URI. */
  lemma ResolveRefusesExactly(root: Option<bytes>, caller: Option<bytes>)
    ensures ResolveListPrefix(root, caller) == Err(PrefixNotRelative) <==>
            (caller.Some? && (StartsWithSlash(caller.value)
                              || exists scheme: bytes, rest: bytes ::
                                   RfcScheme(scheme) && caller.value == scheme + Ascii("://") + rest))
    ensures ResolveListPrefix(root, caller) != Err(OutsideBoundary)
  {
    if caller.Some? { UriSchemeIff(caller.value); }
  }

  /** A prefix is sent exactly when there is a root or a caller's prefix, and it is never an empty one. */
  lemma ResolvedIsProper(root: Option<bytes>, caller: Option<bytes>)
    requires ResolveListPrefix(root, caller).Ok?
    ensures ResolveListPrefix(root, caller) != Ok(Some([]))
    ensures ResolveListPrefix(root, caller) == Ok(None) <==> root in {None, Some([])} && caller in {None, Some([])}
  {
  }

  /** A scheme by section 3.1 of RFC 3986: a letter, then letters, digits, plus, dash and period. */
  predicate RfcScheme(s: bytes) {
    s != [] && RfcAlpha(s[0] as int as char)
    && forall i | 0 <= i < |s| :: RfcAlpha(s[i] as int as char) || '0' <= s[i] as int as char <= '9'
                                  || s[i] as int as char in "+-."
  }

  predicate RfcAlpha(c: char) {
    'A' <= c <= 'Z' || 'a' <= c <= 'z'
  }

  lemma SchemeIsRfc(s: bytes)
    ensures IsScheme(s) <==> RfcScheme(s)
  {
    assert "+-."[0] == '+' && "+-."[1] == '-' && "+-."[2] == '.';
    assert forall b: byte :: IsSchemeByte(b) <==>
      RfcAlpha(b as int as char) || '0' <= b as int as char <= '9' || b as int as char in "+-.";
  }

  lemma UriSchemeIff(s: bytes)
    ensures StartsWithUriScheme(s) <==>
            exists scheme: bytes, rest: bytes :: RfcScheme(scheme) && s == scheme + Ascii("://") + rest
  {
    assert Ascii("://") == SCHEME_END;
    UriSchemeBytes(s);
    if StartsWithUriScheme(s) {
      var scheme: bytes, rest: bytes :| IsScheme(scheme) && s == scheme + SCHEME_END + rest;
      SchemeIsRfc(scheme);
    }
    if exists scheme: bytes, rest: bytes :: RfcScheme(scheme) && s == scheme + SCHEME_END + rest {
      var scheme: bytes, rest: bytes :| RfcScheme(scheme) && s == scheme + SCHEME_END + rest;
      SchemeIsRfc(scheme);
    }
  }

  lemma UriSchemeBytes(s: bytes)
    ensures StartsWithUriScheme(s) <==>
            exists scheme: bytes, rest: bytes :: IsScheme(scheme) && s == scheme + SCHEME_END + rest
  {
    var at := Find(SCHEME_END, s, 0);
    if StartsWithUriScheme(s) {
      assert s == s[..at.value] + SCHEME_END + s[at.value + 3..];
    }
    if exists scheme: bytes, rest: bytes :: IsScheme(scheme) && s == scheme + SCHEME_END + rest {
      var scheme: bytes, rest: bytes :| IsScheme(scheme) && s == scheme + SCHEME_END + rest;
      assert OccursAt(SCHEME_END, s, |scheme|);
      assert s[at.value] == 58 by { assert s[at.value..at.value + 3][0] == 58; }
      assert forall i | 0 <= i < |scheme| :: s[i] == scheme[i] && IsSchemeByte(s[i]);
      assert s[..at.value] == scheme;
    }
  }

  /** Roots whose listings share a key lie one inside the other at a path boundary. */
  lemma RootsAreSeparate(r: bytes, q: bytes, key: bytes)
    requires r != [] && q != [] && |r| <= |q|
    requires StripRootPrefix(Some(r), key).Ok? && StripRootPrefix(Some(q), key).Ok?
    ensures q == r || r + [SLASH] <= q
  {
    assert q + [SLASH] == key[..|q| + 1];
    assert r + [SLASH] == key[..|r| + 1];
    if |r| < |q| {
      assert q == (q + [SLASH])[..|q|] == key[..|q|];
      assert key[..|q|][..|r| + 1] == key[..|r| + 1];
    } else {
      assert q == (q + [SLASH])[..|q|];
      assert r == (r + [SLASH])[..|r|];
    }
  }
}

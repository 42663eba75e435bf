/**
 In-place redaction of an arbitrary object graph before an error event leaves the
 process. Objects may be shared and may form cycles, and the traversal keeps no
 visited set: it is bounded by depth alone.

 A JavaScript object is a `JsObject`, whose own enumerable string keys are listed in
 `keys` and whose values are in `props`. The heap of a set of objects is read off as
 a value, a `Graph`, and the effect of a traversal is described on graphs.
 */
module Redaction {

  const REDACTED: Value := Primitive("[REDACTED]")

  const MAX_DEPTH: nat := 5

  const SENSITIVE_KEYS: set<string> := {
    "password", "passwordconfirm", "oldpassword", "newpassword", "token", "accesstoken",
    "refreshtoken", "access_token", "refresh_token", "cookie", "authorization", "phone",
    "mobile", "id_number", "idnumber", "id_card", "idcard", "wechat", "openid", "unionid",
    "session_key", "sessionkey", "apikey", "api_key", "secret"
  }

  const SENSITIVE_HEADERS: set<string> := {"cookie", "authorization", "set-cookie", "x-tenant-schema"}

  /** A property value: a primitive (or function), `null`, or a reference. */
  datatype Value = Primitive(text: string) | Null | Ref(obj: JsObject)

  type Props = map<string, Value>

  class JsObject {
    const keys: seq<string>
    var props: Props

    constructor (keys: seq<string>, props: Props)
      requires props.Keys == set k | k in keys
      ensures this.keys == keys && this.props == props
    {
      this.keys, this.props := keys, props;
    }
  }

  /** The state of a set of objects, as a value. */
  type Graph = map<JsObject, Props>

  /** Lower-casing, exact on every character whose lower case occurs in a listed key:
      the Latin capitals and the Kelvin sign. */
  function LowerChar(c: char): char {
    if 'A' <= c <= 'Z' then c - 'A' + 'a' else if c == '\U{212A}' then 'k' else c
  }

  function Lower(s: string): string {
    seq(|s|, i requires 0 <= i < |s| => LowerChar(s[i]))
  }

  predicate Sensitive(key: string) {
    Lower(key) in SENSITIVE_KEYS
  }

  // ----- Which keys are sensitive -----

  /** The two characters differ at most in case; the Kelvin sign is a capital of `k`. */
  predicate SameButCase(c: char, d: char) {
    || c == d
    || ('A' <= c <= 'Z' && d as int == c as int + 32) || ('A' <= d <= 'Z' && c as int == d as int + 32)
    || (c == '\U{212A}' && (d == 'k' || d == 'K')) || (d == '\U{212A}' && (c == 'k' || c == 'K'))
  }

  predicate EqualButCase(s: string, t: string) {
    |s| == |t| && forall i | 0 <= i < |s| :: SameButCase(s[i], t[i])
  }

  lemma LowerByCase(c: char, d: char)
    ensures LowerChar(c) == LowerChar(d) <==> SameButCase(c, d)
  {
  }

  lemma LowerDecidesCase(s: string, t: string)
    ensures Lower(s) == Lower(t) <==> EqualButCase(s, t)
  {
    if |s| == |t| {
      forall i | 0 <= i < |s|
        ensures Lower(s)[i] == Lower(t)[i] <==> SameButCase(s[i], t[i])
      {
        LowerByCase(s[i], t[i]);
      }
      if Lower(s) != Lower(t) {
        var i :| 0 <= i < |s| && Lower(s)[i] != Lower(t)[i];
      }
    }
  }

  predicate InLowerCase(s: string) {
    forall c <- s :: !('A' <= c <= 'Z') && c != '\U{212A}'
  }

  lemma LowerCaseStays(s: string)
    requires InLowerCase(s)
    ensures Lower(s) == s
  {
    forall i | 0 <= i < |s|
      ensures Lower(s)[i] == s[i]
    {
      assert s[i] in s;
    }
  }

  // The keys listed in the code.

  predicate ListedSecret(k: string) {
    || k == "password" || k == "passwordconfirm" || k == "oldpassword" || k == "newpassword"
    || k == "apikey" || k == "api_key" || k == "secret"
  }

  predicate ListedToken(k: string) {
    || k == "token" || k == "accesstoken" || k == "refreshtoken" || k == "access_token" || k == "refresh_token"
    || k == "cookie" || k == "authorization" || k == "session_key" || k == "sessionkey"
  }

  predicate ListedPersonal(k: string) {
    || k == "phone" || k == "mobile" || k == "id_number" || k == "idnumber" || k == "id_card" || k == "idcard"
    || k == "wechat" || k == "openid" || k == "unionid"
  }

  predicate Listed(k: string) {
    ListedSecret(k) || ListedToken(k) || ListedPersonal(k)
  }

  predicate ListedHeader(k: string) {
    k == "cookie" || k == "authorization" || k == "set-cookie" || k == "x-tenant-schema"
  }

  lemma SecretInLowerCase(k: string)
    requires ListedSecret(k)
    ensures InLowerCase(k)
  {
  }

  lemma TokenInLowerCase(k: string)
    requires ListedToken(k)
    ensures InLowerCase(k)
  {
  }

  lemma PersonalInLowerCase(k: string)
    requires ListedPersonal(k)
    ensures InLowerCase(k)
  {
  }

  lemma HeaderInLowerCase(k: string)
    requires ListedHeader(k)
    ensures InLowerCase(k)
  {
  }

  lemma ListedIsTheSet(k: string)
    ensures k in SENSITIVE_KEYS <==> Listed(k)
    ensures k in SENSITIVE_HEADERS <==> ListedHeader(k)
  {
  }

  /** Against a name in lower case, equal but for case means equal when lower-cased. */
  lemma LowerMatches(k: string, l: string)
    requires InLowerCase(l)
    ensures EqualButCase(k, l) <==> Lower(k) == l
  {
    LowerCaseStays(l);
    LowerDecidesCase(k, l);
  }

  lemma ListedMatches(k: string, l: string)
    requires Listed(l) || ListedHeader(l)
    ensures EqualButCase(k, l) <==> Lower(k) == l
  {
    if ListedSecret(l) { SecretInLowerCase(l); }
    else if ListedToken(l) { TokenInLowerCase(l); }
    else if ListedPersonal(l) { PersonalInLowerCase(l); }
    else { HeaderInLowerCase(l); }
    LowerMatches(k, l);
  }

  /** A key is sensitive exactly when it equals a listed one but for case. */
  lemma SensitiveExactly(k: string)
    ensures Sensitive(k) <==> exists l :: Listed(l) && EqualButCase(k, l)
    ensures SensitiveHeader(k) <==> exists l :: ListedHeader(l) && EqualButCase(k, l)
  {
    LowerOfLower(k);
    ListedIsTheSet(Lower(k));
    forall l | Listed(l) || ListedHeader(l)
      ensures EqualButCase(k, l) <==> Lower(k) == l
    {
      ListedMatches(k, l);
    }
  }

  lemma LowerOfLower(k: string)
    ensures Lower(Lower(k)) == Lower(k) && EqualButCase(k, Lower(k))
  {
    LowerDecidesCase(k, Lower(k));
  }

  // ----- Graphs -----

  ghost function Snapshot(universe: set<JsObject>): Graph
    reads universe
  {
    map o | o in universe :: o.props
  }

  /** Every reference leads to an object of the graph, and key lists are accurate. */
  ghost predicate Closed(g: Graph) {
    forall o <- g.Keys :: 
      && g[o].Keys == (set k | k in o.keys)
      && forall k <- g[o].Keys :: g[o][k].Ref? ==> g[o][k].obj in g.Keys
  }

  /** The traversal follows `k`: it is a reference under a key that is not sensitive. */
  ghost predicate Follows(p: Props, k: string) {
    k in p && !Sensitive(k) && p[k].Ref?
  }

  /** `target` can be reached from `o` in at most `n` steps that avoid sensitive keys. */
  ghost predicate CleanReach(g: Graph, o: JsObject, target: JsObject, n: nat)
    requires Closed(g)
    decreases n
  {
    o in g && (o == target || (n > 0 && exists k :: Follows(g[o], k) && CleanReach(g, g[o][k].obj, target, n - 1)))
  }

  /** `target` can be reached from `o` in at most `n` steps of any kind. */
  ghost predicate Reach(g: Graph, o: JsObject, target: JsObject, n: nat)
    requires Closed(g)
    decreases n
  {
    o in g && (o == target ||
    (n > 0 && exists k :: k in g[o] && g[o][k].Ref? && Reach(g, g[o][k].obj, target, n - 1)))
  }

  ghost function RedactOnly(p: Props, ks: seq<string>): Props {
    map k | k in p :: if k in ks && Sensitive(k) then REDACTED else p[k]
  }

  ghost function RedactAll(p: Props): Props {
    map k | k in p :: if Sensitive(k) then REDACTED else p[k]
  }

  /** The whole effect of a traversal from `root` with `n` levels left below it. */
  ghost function Scrubbed(g: Graph, root: JsObject, n: nat): Graph
    requires Closed(g)
  {
    map o | o in g :: PropsScrubbed(g, root, n, o)
  }

  ghost function PropsScrubbed(g: Graph, root: JsObject, n: nat, o: JsObject): Props
    requires Closed(g) && o in g
  {
    if CleanReach(g, root, o, n) then RedactAll(g[o]) else g[o]
  }

  /** The graph after the first `i` keys of `obj` have been handled. */
  ghost function ScrubbedUpTo(g: Graph, obj: JsObject, n: nat, i: nat): Graph
    requires Closed(g) && obj in g && i <= |obj.keys|
  {
    map o | o in g :: PropsScrubbedUpTo(g, obj, n, i, o)
  }

  ghost function PropsScrubbedUpTo(g: Graph, obj: JsObject, n: nat, i: nat, o: JsObject): Props
    requires Closed(g) && obj in g && o in g && i <= |obj.keys|
  {
    if ReachedVia(g, obj, o, n, i) then RedactAll(g[o])
    else if o == obj then RedactOnly(g[o], obj.keys[..i])
    else g[o]
  }

  ghost predicate ReachedVia(g: Graph, obj: JsObject, target: JsObject, n: nat, i: nat)
    requires Closed(g) && obj in g && i <= |obj.keys|
  {
    n > 0 && exists j :: 0 <= j < i && Follows(g[obj], obj.keys[j]) && CleanReach(g, g[obj][obj.keys[j]].obj, target, n - 1)
  }

  /** Two graphs over the same objects agree wherever the traversal may walk. */
  ghost predicate SameCleanPart(g: Graph, h: Graph) {
    && g.Keys == h.Keys
    && forall o <- g.Keys :: && g[o].Keys == h[o].Keys
                             && forall k <- g[o].Keys :: if Sensitive(k) then h[o][k] == g[o][k] || h[o][k] == REDACTED
                                                         else h[o][k] == g[o][k]
  }

  lemma SameCleanPartClosed(g: Graph, h: Graph)
    requires Closed(g) && SameCleanPart(g, h)
    ensures Closed(h)
  {
  }

  lemma {:induction false} CleanReachUnchanged(g: Graph, h: Graph, o: JsObject, target: JsObject, n: nat)
    requires Closed(g) && Closed(h) && SameCleanPart(g, h)
    ensures CleanReach(g, o, target, n) <==> CleanReach(h, o, target, n)
    decreases n
  {
    if o in g && n > 0 {
      forall k | Follows(g[o], k) || Follows(h[o], k)
        ensures Follows(g[o], k) && Follows(h[o], k) && g[o][k] == h[o][k]
        ensures CleanReach(g, g[o][k].obj, target, n - 1) <==> CleanReach(h, h[o][k].obj, target, n - 1)
      {
        CleanReachUnchanged(g, h, g[o][k].obj, target, n - 1);
      }
    }
  }
  
  lemma ScrubbedKeepsCleanPart(g: Graph, root: JsObject, n: nat)
    requires Closed(g)
    ensures Closed(Scrubbed(g, root, n)) && SameCleanPart(g, Scrubbed(g, root, n))
  {
  }

  /** Neither the keys of an object nor the values under its non-sensitive keys change. */
  lemma ScrubbedUpToKeepsCleanPart(g: Graph, obj: JsObject, n: nat, i: nat)
    requires Closed(g) && obj in g && i <= |obj.keys|
    ensures Closed(ScrubbedUpTo(g, obj, n, i)) && SameCleanPart(g, ScrubbedUpTo(g, obj, n, i))
  {
    SameCleanPartClosed(g, ScrubbedUpTo(g, obj, n, i));
  }

  lemma RedactAllAbsorbs(p: Props, ks: seq<string>)
    ensures RedactAll(RedactOnly(p, ks)) == RedactAll(p) == RedactAll(RedactAll(p))
    ensures forall k :: k in p && Sensitive(k) ==> RedactAll(p)[k := REDACTED] == RedactAll(p)
  {
  }

  lemma ReachedViaNext(g: Graph, obj: JsObject, o: JsObject, n: nat, i: nat)
    requires Closed(g) && obj in g && i < |obj.keys|
    ensures ReachedVia(g, obj, o, n, i + 1) <==>
              ReachedVia(g, obj, o, n, i) ||
              (n > 0 && Follows(g[obj], obj.keys[i]) && CleanReach(g, g[obj][obj.keys[i]].obj, o, n - 1))
  {
  }

  lemma RedactOnlyNext(p: Props, ks: seq<string>, i: nat)
    requires i < |ks| && ks[i] in p
    ensures RedactOnly(p, ks[..i + 1])
              == if Sensitive(ks[i]) then RedactOnly(p, ks[..i])[ks[i] := REDACTED] else RedactOnly(p, ks[..i])
  {
  }

  lemma RedactAllUpTo(g: Graph, obj: JsObject, n: nat, i: nat, o: JsObject)
    requires Closed(g) && obj in g && o in g && i <= |obj.keys|
    ensures RedactAll(PropsScrubbedUpTo(g, obj, n, i, o)) == RedactAll(g[o])
  {
    RedactAllAbsorbs(g[o], obj.keys[..i]);
  }

  /** A key that is followed redacts what is in reach of its object. */
  lemma UpToFollowed(g: Graph, obj: JsObject, n: nat, i: nat, o: JsObject)
    requires Closed(g) && obj in g && o in g && i < |obj.keys| && n > 0 && Follows(g[obj], obj.keys[i])
    ensures PropsScrubbedUpTo(g, obj, n, i + 1, o)
              == if CleanReach(g, g[obj][obj.keys[i]].obj, o, n - 1) then RedactAll(g[o]) else PropsScrubbedUpTo(g, obj, n, i, o)
  {
    ReachedViaNext(g, obj, o, n, i);
    RedactOnlyNext(g[obj], obj.keys, i);
  }

  lemma FollowedKeyAt(g: Graph, obj: JsObject, n: nat, i: nat, o: JsObject)
    requires Closed(g) && obj in g && i < |obj.keys| && n > 0 && Follows(g[obj], obj.keys[i])
    requires Closed(ScrubbedUpTo(g, obj, n, i)) && o in g
    ensures PropsScrubbed(ScrubbedUpTo(g, obj, n, i), g[obj][obj.keys[i]].obj, n - 1, o)
              == PropsScrubbedUpTo(g, obj, n, i + 1, o)
  {
    var h: Graph, child := ScrubbedUpTo(g, obj, n, i), g[obj][obj.keys[i]].obj;
    ScrubbedUpToKeepsCleanPart(g, obj, n, i);
    CleanReachUnchanged(g, h, child, o, n - 1);
    UpToFollowed(g, obj, n, i, o);
    RedactAllUpTo(g, obj, n, i, o);
    assert h[o] == PropsScrubbedUpTo(g, obj, n, i, o);
  }

  /** Handling one more key that the traversal follows. */
  lemma FollowedKey(g: Graph, obj: JsObject, n: nat, i: nat)
    requires Closed(g) && obj in g && i < |obj.keys| && n > 0 && Follows(g[obj], obj.keys[i])
    requires Closed(ScrubbedUpTo(g, obj, n, i))
    ensures Scrubbed(ScrubbedUpTo(g, obj, n, i), g[obj][obj.keys[i]].obj, n - 1) == ScrubbedUpTo(g, obj, n, i + 1)
  {
    var h, child := ScrubbedUpTo(g, obj, n, i), g[obj][obj.keys[i]].obj;
    forall o | o in g
      ensures PropsScrubbed(h, child, n - 1, o) == PropsScrubbedUpTo(g, obj, n, i + 1, o)
    {
      FollowedKeyAt(g, obj, n, i, o);
    }
  }

  lemma SkippedKeyAt(g: Graph, obj: JsObject, n: nat, i: nat, o: JsObject)
    requires Closed(g) && obj in g && o in g && i < |obj.keys|
    requires n == 0 || !Follows(g[obj], obj.keys[i])
    ensures var p, k := PropsScrubbedUpTo(g, obj, n, i, o), obj.keys[i];
            PropsScrubbedUpTo(g, obj, n, i + 1, o) == if Sensitive(k) && o == obj then p[k := REDACTED] else p
  {
    ReachedViaNext(g, obj, o, n, i);
    if o == obj {
      RedactOnlyNext(g[obj], obj.keys, i);
      RedactAllAbsorbs(g[obj], obj.keys[..i]);
    }
  }

  /** Handling one more key that is not followed, or is followed at the depth limit. */
  lemma SkippedKey(g: Graph, obj: JsObject, n: nat, i: nat)
    requires Closed(g) && obj in g && i < |obj.keys|
    requires n == 0 || !Follows(g[obj], obj.keys[i])
    ensures var h := ScrubbedUpTo(g, obj, n, i);
            ScrubbedUpTo(g, obj, n, i + 1)
              == if Sensitive(obj.keys[i]) then h[obj := h[obj][obj.keys[i] := REDACTED]] else h
  {
    var h, k := ScrubbedUpTo(g, obj, n, i), obj.keys[i];
    forall o | o in g
      ensures PropsScrubbedUpTo(g, obj, n, i + 1, o) == if Sensitive(k) && o == obj then h[o][k := REDACTED] else h[o]
    {
      SkippedKeyAt(g, obj, n, i, o);
    }
  }

  /** What one turn of the loop does to the graph. */
  ghost function AfterKey(h: Graph, obj: JsObject, k: string, n: nat): Graph
    requires Closed(h) && obj in h && k in h[obj]
  {
    if Sensitive(k) then h[obj := h[obj][k := REDACTED]]
    else if h[obj][k].Ref? && n > 0 then Scrubbed(h, h[obj][k].obj, n - 1)
    else h
  }

  lemma NextKey(g: Graph, obj: JsObject, n: nat, i: nat)
    requires Closed(g) && obj in g && i < |obj.keys|
    ensures var h := ScrubbedUpTo(g, obj, n, i);
            && Closed(h) && obj.keys[i] in h[obj]
            && AfterKey(h, obj, obj.keys[i], n) == ScrubbedUpTo(g, obj, n, i + 1)
  {
    ScrubbedUpToKeepsCleanPart(g, obj, n, i);
    assert obj.keys[i] in g[obj];
    if n > 0 && Follows(g[obj], obj.keys[i]) {
      FollowedKey(g, obj, n, i);
    } else {
      SkippedKey(g, obj, n, i);
    }
  }

  lemma AllKeysHandled(g: Graph, obj: JsObject, n: nat)
    requires Closed(g) && obj in g
    ensures ScrubbedUpTo(g, obj, n, |obj.keys|) == Scrubbed(g, obj, n)
  {
    assert obj.keys[..|obj.keys|] == obj.keys;
    assert RedactOnly(g[obj], obj.keys) == RedactAll(g[obj]);
    forall o | o in g
      ensures CleanReach(g, obj, o, n) <==> o == obj || ReachedVia(g, obj, o, n, |obj.keys|)
    {
      if n > 0 && exists k :: Follows(g[obj], k) && CleanReach(g, g[obj][k].obj, o, n - 1) {
        var k :| Follows(g[obj], k) && CleanReach(g, g[obj][k].obj, o, n - 1);
        assert k in obj.keys;
        var j :| 0 <= j < |obj.keys| && obj.keys[j] == k;
      }
    }
  }

  lemma NoKeysHandled(g: Graph, obj: JsObject, n: nat)
    requires Closed(g) && obj in g
    ensures ScrubbedUpTo(g, obj, n, 0) == g
  {
    assert RedactOnly(g[obj], obj.keys[..0]) == g[obj];
  }

  // ----- The traversal -----

  /** The assignment `obj[k] = '[REDACTED]'`. */
  method Overwrite(obj: JsObject, k: string, ghost universe: set<JsObject>)
    requires obj in universe && k in obj.props
    modifies obj
    ensures Snapshot(universe) == old(Snapshot(universe))[obj := old(obj.props)[k := REDACTED]]
  {
    obj.props := obj.props[k := REDACTED];
  }

  /** Redacts `obj` and everything below it, down to `MAX_DEPTH`. The universe is any
      set of objects closed under references that contains the root. */
  method ScrubObject(obj: JsObject?, depth: nat, ghost universe: set<JsObject>)
    requires obj != null ==> obj in universe
    requires Closed(Snapshot(universe))
    modifies universe
    ensures Closed(Snapshot(universe))
    ensures obj == null || depth > MAX_DEPTH ==> Snapshot(universe) == old(Snapshot(universe))
    ensures obj != null && depth <= MAX_DEPTH ==>
              Snapshot(universe) == Scrubbed(old(Snapshot(universe)), obj, MAX_DEPTH - depth)
    decreases MAX_DEPTH + 1 - depth
  {
    if depth > MAX_DEPTH || obj == null {
      return;
    }
    ghost var g, n := Snapshot(universe), MAX_DEPTH - depth;
    NoKeysHandled(g, obj, n);
    for i := 0 to |obj.keys|
      invariant Snapshot(universe) == ScrubbedUpTo(g, obj, n, i)
    {
      NextKey(g, obj, n, i);
      ScrubKey(obj, obj.keys[i], depth, universe);
    }
    AllKeysHandled(g, obj, n);
    ScrubbedKeepsCleanPart(g, obj, n);
  }

  /** One turn of the loop over the keys. */
  method ScrubKey(obj: JsObject, k: string, depth: nat, ghost universe: set<JsObject>)
    requires obj in universe && depth <= MAX_DEPTH && k in obj.props
    requires Closed(Snapshot(universe))
    modifies universe
    ensures Snapshot(universe) == AfterKey(old(Snapshot(universe)), obj, k, MAX_DEPTH - depth)
    decreases MAX_DEPTH + 1 - depth, 0
  {
    if Sensitive(k) {
      Overwrite(obj, k, universe);
    } else if obj.props[k].Ref? {
      assert obj.props == Snapshot(universe)[obj];
      ScrubObject(obj.props[k].obj, depth + 1, universe);
    }
  }

  // ----- What a traversal guarantees -----

  ghost predicate FullyRedacted(p: Props) {
    forall k <- p.Keys :: Sensitive(k) ==> p[k] == Primitive("[REDACTED]")
  }

  /** No object within reach of `root`, by any path of at most five steps, holds
      an unredacted sensitive value. */
  ghost predicate RedactedBelow(g: Graph, root: JsObject)
    requires Closed(g)
  {
    forall o <- g.Keys :: Reach(g, root, o, 5) ==> FullyRedacted(g[o])
  }

  lemma {:induction false} CleanReachExtends(g: Graph, o: JsObject, mid: JsObject, k: string, n: nat)
    requires Closed(g) && CleanReach(g, o, mid, n) && mid in g && Follows(g[mid], k)
    ensures CleanReach(g, o, g[mid][k].obj, n + 1)
    decreases n
  {
    if o == mid {
      assert CleanReach(g, g[o][k].obj, g[mid][k].obj, n);
    } else {
      var j :| Follows(g[o], j) && CleanReach(g, g[o][j].obj, mid, n - 1);
      CleanReachExtends(g, g[o][j].obj, mid, k, n - 1);
    }
  }

  lemma {:induction false} CleanReachWeakens(g: Graph, o: JsObject, target: JsObject, n: nat, n': nat)
    requires Closed(g) && CleanReach(g, o, target, n) && n <= n'
    ensures CleanReach(g, o, target, n')
    decreases n
  {
    if o != target {
      var j :| Follows(g[o], j) && CleanReach(g, g[o][j].obj, target, n - 1);
      CleanReachWeakens(g, g[o][j].obj, target, n - 1, n' - 1);
    }
  }

  /** After the traversal, every short path from the root is one the traversal took. */
  lemma {:induction false} ReachAfterScrub(g: Graph, root: JsObject, n: nat, mid: JsObject, o: JsObject, m: nat)
    requires Closed(g) && Closed(Scrubbed(g, root, n)) && m <= n
    requires CleanReach(g, root, mid, n - m) && Reach(Scrubbed(g, root, n), mid, o, m)
    ensures CleanReach(g, root, o, n)
    decreases m
  {
    var h: Graph := Scrubbed(g, root, n);
    CleanReachWeakens(g, root, mid, n - m, n);
    if mid != o {
      var k: string :| k in h[mid] && h[mid][k].Ref? && Reach(h, h[mid][k].obj, o, m - 1);
      assert h[mid] == RedactAll(g[mid]);
      CleanReachExtends(g, root, mid, k, n - m);
      ReachAfterScrub(g, root, n, h[mid][k].obj, o, m - 1);
    }
  }

  /** The traversal redacts everything within five steps of its root and touches no
      value under a key that is not sensitive. */
  lemma ScrubRedactsBelow(g: Graph, root: JsObject)
    requires Closed(g) && root in g
    ensures Closed(Scrubbed(g, root, MAX_DEPTH)) && RedactedBelow(Scrubbed(g, root, MAX_DEPTH), root)
    ensures SameCleanPart(g, Scrubbed(g, root, MAX_DEPTH))
  {
    var h := Scrubbed(g, root, MAX_DEPTH);
    ScrubbedKeepsCleanPart(g, root, MAX_DEPTH);
    forall o | o in h && Reach(h, root, o, MAX_DEPTH)
      ensures FullyRedacted(h[o])
    {
      assert CleanReach(g, root, root, 0);
      ReachAfterScrub(g, root, MAX_DEPTH, root, o, MAX_DEPTH);
    }
  }

  /** A second traversal changes nothing. */
  lemma ScrubIsIdempotent(g: Graph, root: JsObject, n: nat)
    requires Closed(g)
    ensures Closed(Scrubbed(g, root, n)) && Scrubbed(Scrubbed(g, root, n), root, n) == Scrubbed(g, root, n)
  {
    var h: Graph := Scrubbed(g, root, n);
    ScrubbedKeepsCleanPart(g, root, n);
    forall o | o in g
      ensures PropsScrubbed(h, root, n, o) == h[o]
    {
      CleanReachUnchanged(g, h, root, o, n);
      RedactAllAbsorbs(g[o], []);
    }
  }

  /** An object beyond the depth limit, or reachable only through a sensitive key, is
      left exactly as it was: the traversal redacts nothing else. */
  lemma ScrubTouchesOnlyCleanReach(g: Graph, root: JsObject, o: JsObject)
    requires Closed(g) && o in g
    ensures Scrubbed(g, root, MAX_DEPTH)[o] == g[o] <==> CleanReach(g, root, o, MAX_DEPTH) ==> FullyRedacted(g[o])
  {
  }

  lemma SameCleanPartTransitive(g: Graph, h: Graph, h': Graph)
    requires Closed(g) && Closed(h) && SameCleanPart(g, h) && SameCleanPart(h, h')
    ensures SameCleanPart(g, h')
  {
  }

  lemma {:induction false} ReachShrinks(g: Graph, h: Graph, o: JsObject, target: JsObject, n: nat)
    requires Closed(g) && Closed(h) && SameCleanPart(g, h) && Reach(h, o, target, n)
    ensures Reach(g, o, target, n)
    decreases n
  {
    if o != target {
      var k: string :| k in h[o] && h[o][k].Ref? && Reach(h, h[o][k].obj, target, n - 1);
      ReachShrinks(g, h, h[o][k].obj, target, n - 1);
      assert k in g[o] && g[o][k] == h[o][k];
    }
  }

  /** Later traversals, from any root, keep what an earlier one achieved. */
  lemma RedactedBelowPersists(g: Graph, h: Graph, root: JsObject)
    requires Closed(g) && Closed(h) && SameCleanPart(g, h) && RedactedBelow(g, root)
    ensures RedactedBelow(h, root)
  {
    forall o | o in h && Reach(h, root, o, MAX_DEPTH)
      ensures FullyRedacted(h[o])
    {
      ReachShrinks(g, h, root, o, MAX_DEPTH);
    }
  }

  // ----- The hook run before an event is sent -----

  /** The parts of an event that the hook looks at; `data` is `Null` when absent. */
  datatype Event = Event(headers: JsObject?, data: Value, extra: JsObject?, contexts: JsObject?) {
    ghost predicate Within(universe: set<JsObject>) {
      && (headers != null ==> headers in universe)
      && (data.Ref? ==> data.obj in universe)
      && (extra != null ==> extra in universe)
      && (contexts != null ==> contexts in universe)
    }
  }

  predicate SensitiveHeader(k: string) {
    Lower(k) in SENSITIVE_HEADERS
  }

  ghost function HeadersRedacted(g: Graph, headers: JsObject?): Graph {
    if headers == null || headers !in g then g else g[headers := WithoutHeaders(g[headers], headers.keys)]
  }

  ghost function WithoutHeaders(p: Props, ks: seq<string>): Props {
    map k | k in p :: if k in ks && SensitiveHeader(k) then REDACTED else p[k]
  }

  lemma WithoutHeadersNext(p: Props, ks: seq<string>, i: nat)
    requires i < |ks| && ks[i] in p
    ensures WithoutHeaders(p, ks[..i + 1])
              == if SensitiveHeader(ks[i]) then WithoutHeaders(p, ks[..i])[ks[i] := REDACTED] else WithoutHeaders(p, ks[..i])
  {
  }

  /** The four headers end redacted, however they are spelled; every other header and every
      other object is as it was. */
  method RedactHeaders(headers: JsObject, ghost universe: set<JsObject>)
    requires headers in universe && Closed(Snapshot(universe))
    modifies headers
    ensures Closed(Snapshot(universe)) && headers.props.Keys == old(headers.props).Keys
    ensures forall k, l | k in headers.props && ListedHeader(l) && EqualButCase(k, l) :: headers.props[k] == REDACTED
    ensures forall k <- headers.props.Keys ::
              (forall l | ListedHeader(l) :: !EqualButCase(k, l)) ==> headers.props[k] == old(headers.props)[k]
    ensures forall o <- universe :: o != headers ==> o.props == old(o.props)
    ensures Snapshot(universe) == HeadersRedacted(old(Snapshot(universe)), headers)
  {
    ghost var g := Snapshot(universe);
    for i := 0 to |headers.keys|
      invariant headers.props == WithoutHeaders(g[headers], headers.keys[..i])
    {
      var k := headers.keys[i];
      WithoutHeadersNext(g[headers], headers.keys, i);
      if SensitiveHeader(k) {
        headers.props := headers.props[k := REDACTED];
      }
    }
    assert headers.keys[..|headers.keys|] == headers.keys;
    forall k | k in headers.props
      ensures SensitiveHeader(k) <==> exists l :: ListedHeader(l) && EqualButCase(k, l)
    {
      SensitiveExactly(k);
    }
  }

  /** What the hook leaves of the headers: the listed ones redacted, the others as they were. */
  ghost predicate HeadersClean(before: Props, after: Props) {
    && after.Keys == before.Keys
    && (forall k, l | k in after && ListedHeader(l) && EqualButCase(k, l) :: after[k] == REDACTED)
    && (forall k <- after.Keys ::
          (forall l | Listed(l) || ListedHeader(l) :: !EqualButCase(k, l)) ==> after[k] == before[k])
  }

  /** The key is not listed, whatever its case, nor is it a listed header of `headers`. */
  ghost predicate Unlisted(o: JsObject, k: string, headers: JsObject?) {
    forall l | EqualButCase(k, l) :: !Listed(l) && (o == headers ==> !ListedHeader(l))
  }

  /** No key comes or goes, and what is not listed keeps its value. */
  ghost predicate OthersKept(g: Graph, h: Graph, headers: JsObject?) {
    && h.Keys == g.Keys
    && (forall o <- g.Keys :: h[o].Keys == g[o].Keys)
    && (forall o, k | o in g && k in g[o] && Unlisted(o, k, headers) :: h[o][k] == g[o][k])
  }

  lemma OthersStayKept(g: Graph, h: Graph, h': Graph, headers: JsObject?)
    requires OthersKept(g, h, headers) && SameCleanPart(h, h')
    ensures OthersKept(g, h', headers)
  {
    forall o, k | o in g && k in g[o] && Unlisted(o, k, headers)
      ensures h'[o][k] == g[o][k]
    {
      SensitiveExactly(k);
    }
  }

  lemma HeadersStayClean(before: Props, h: Graph, h': Graph, headers: JsObject)
    requires headers in h && HeadersClean(before, h[headers]) && SameCleanPart(h, h')
    ensures HeadersClean(before, h'[headers])
  {
    forall k | k in h'[headers] && forall l | Listed(l) || ListedHeader(l) :: !EqualButCase(k, l)
      ensures h'[headers][k] == before[k]
    {
      SensitiveExactly(k);
    }
  }

  ghost predicate RootsRedacted(g: Graph, roots: set<JsObject>)
    requires Closed(g)
  {
    forall r <- roots :: RedactedBelow(g, r)
  }

  /** One root of the event: afterwards it is redacted, and so is every root before it. */
  method ScrubRoot(root: JsObject, ghost done: set<JsObject>, ghost g: Graph, ghost universe: set<JsObject>)
    requires root in universe && Closed(g) && Closed(Snapshot(universe)) && SameCleanPart(g, Snapshot(universe))
    requires RootsRedacted(Snapshot(universe), done)
    modifies universe
    ensures Closed(Snapshot(universe)) && SameCleanPart(g, Snapshot(universe))
    ensures RootsRedacted(Snapshot(universe), done + {root})
  {
    ghost var h := Snapshot(universe);
    ScrubObject(root, 0, universe);
    ScrubRedactsBelow(h, root);
    SameCleanPartTransitive(g, h, Snapshot(universe));
    forall r | r in done
      ensures RedactedBelow(Snapshot(universe), r)
    {
      RedactedBelowPersists(h, Snapshot(universe), r);
    }
  }

  /** When the hook returns, nothing sensitive is left within five steps of the body, the
      extra data or any context, however these share structure; and apart from the
      redacted headers, every value under a non-sensitive key is as it was. */
  method BeforeSend(event: Event, ghost universe: set<JsObject>)
    requires event.Within(universe) && Closed(Snapshot(universe))
    modifies universe
    ensures Closed(Snapshot(universe))
    ensures SameCleanPart(HeadersRedacted(old(Snapshot(universe)), event.headers), Snapshot(universe))
    ensures event.headers != null ==> HeadersClean(old(event.headers.props), event.headers.props)
    ensures OthersKept(old(Snapshot(universe)), Snapshot(universe), event.headers)
    ensures event.data.Ref? ==> RedactedBelow(Snapshot(universe), event.data.obj)
    ensures event.extra != null ==> RedactedBelow(Snapshot(universe), event.extra)
    ensures event.contexts != null ==>
              forall k <- event.contexts.props.Keys :: event.contexts.props[k].Ref? ==>
                RedactedBelow(Snapshot(universe), event.contexts.props[k].obj)
  {
    if event.headers != null {
      RedactHeaders(event.headers, universe);
    }
    ghost var g := Snapshot(universe);
    assert g == HeadersRedacted(old(Snapshot(universe)), event.headers);
    assert OthersKept(old(Snapshot(universe)), g, event.headers);
    ghost var done: set<JsObject> := {};
    if event.data.Ref? {
      ScrubRoot(event.data.obj, done, g, universe);
      done := done + {event.data.obj};
    }
    if event.extra != null {
      ScrubRoot(event.extra, done, g, universe);
      done := done + {event.extra};
    }
    if event.contexts != null {
      ScrubContexts(event.contexts, done, g, universe);
    }
    OthersStayKept(old(Snapshot(universe)), g, Snapshot(universe), event.headers);
    if event.headers != null {
      HeadersStayClean(old(event.headers.props), g, Snapshot(universe), event.headers);
      assert event.headers.props == Snapshot(universe)[event.headers];
    }
  }

  method ScrubContexts(contexts: JsObject, ghost roots: set<JsObject>, ghost g: Graph, ghost universe: set<JsObject>)
    requires contexts in universe && Closed(g) && Closed(Snapshot(universe)) && SameCleanPart(g, Snapshot(universe))
    requires RootsRedacted(Snapshot(universe), roots)
    modifies universe
    ensures Closed(Snapshot(universe)) && SameCleanPart(g, Snapshot(universe))
    ensures RootsRedacted(Snapshot(universe), roots)
    ensures forall k <- contexts.props.Keys :: contexts.props[k].Ref? ==>
              RedactedBelow(Snapshot(universe), contexts.props[k].obj)
  {
    ghost var done := roots;
    for i := 0 to |contexts.keys|
      invariant Closed(Snapshot(universe)) && SameCleanPart(g, Snapshot(universe)) && roots <= done
      invariant RootsRedacted(Snapshot(universe), done)
      invariant ContextsDone(Snapshot(universe), contexts, contexts.keys[..i], done)
    {
      done := ScrubContext(contexts, contexts.keys[i], contexts.keys[..i], done, g, universe);
      OneMore(contexts.keys, i);
    }
    assert Snapshot(universe)[contexts] == contexts.props;
    assert contexts.keys[..|contexts.keys|] == contexts.keys;
    ContextsRedacted(Snapshot(universe), contexts, done);
  }

  lemma OneMore(ks: seq<string>, i: nat)
    requires i < |ks|
    ensures ks[..i + 1] == ks[..i] + [ks[i]]
  {
  }

  lemma ContextsRedacted(g: Graph, contexts: JsObject, done: set<JsObject>)
    requires Closed(g) && contexts in g
    requires RootsRedacted(g, done) && ContextsDone(g, contexts, contexts.keys, done)
    ensures forall k <- g[contexts].Keys :: g[contexts][k].Ref? ==> RedactedBelow(g, g[contexts][k].obj)
  {
  }

  /** One context; `done` collects the roots handled so far. */
  method ScrubContext(contexts: JsObject, k: string, ghost ks: seq<string>, ghost done: set<JsObject>, ghost g: Graph,
                      ghost universe: set<JsObject>)
    returns (ghost done': set<JsObject>)
    requires contexts in universe && Closed(g) && Closed(Snapshot(universe)) && SameCleanPart(g, Snapshot(universe))
    requires RootsRedacted(Snapshot(universe), done)
    requires ContextsDone(Snapshot(universe), contexts, ks, done)
    requires k in contexts.props
    modifies universe
    ensures Closed(Snapshot(universe)) && SameCleanPart(g, Snapshot(universe)) && done <= done'
    ensures RootsRedacted(Snapshot(universe), done')
    ensures ContextsDone(Snapshot(universe), contexts, ks + [k], done')
  {
    ghost var h := Snapshot(universe);
    assert h[contexts] == contexts.props;
    done' := done;
    if contexts.props[k].Ref? {
      done' := done + {contexts.props[k].obj};
      ScrubRoot(contexts.props[k].obj, done, h, universe);
      SameCleanPartTransitive(g, h, Snapshot(universe));
    }
    ContextsStayDone(h, Snapshot(universe), contexts, ks, done, done');
  }

  lemma ContextsStayDone(g: Graph, h: Graph, contexts: JsObject, ks: seq<string>, done: set<JsObject>, done': set<JsObject>)
    requires SameCleanPart(g, h) && done <= done'
    requires ContextsDone(g, contexts, ks, done)
    ensures ContextsDone(h, contexts, ks, done')
  {
  }

  ghost predicate ContextsDone(g: Graph, contexts: JsObject, ks: seq<string>, done: set<JsObject>) {
    forall k | k in ks :: ContextDone(g, contexts, k, done)
  }

  ghost predicate ContextDone(g: Graph, contexts: JsObject, k: string, done: set<JsObject>) {
    contexts in g && k in g[contexts] && (g[contexts][k].Ref? ==> g[contexts][k].obj in done)
  }
}

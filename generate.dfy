/**
 * The name and list helpers of internal/action/generate.go: reading the positional
 * arguments of `generate`, finding a password rule or a change URL for a secret name,
 * copying metadata into a secret, and the list filters behind completion.
 */
module Generate {
  import opened Wrappers
  import opened Strings
  import opened KVFormat
  import opened Secrets

  // ---------------------------------------------------------------------------------
  // keyAndLength

  /** The `n`-th positional argument, or "" when there are fewer. */
  function Arg(args: seq<string>, n: nat): string
  {
    if n < |args| then args[n] else ""
  }

  /** `^\d+$`: one or more ASCII digits and nothing else. */
  predicate IsNumber(s: string)
  {
    |s| > 0 && forall i :: 0 <= i < |s| ==> '0' <= s[i] <= '9'
  }

  /**
   * `keyAndLength`: with a single argument after the name that is a number, that number
   * is the length and there is no key; otherwise the arguments are the key and the length.
   */
  function KeyAndLength(args: seq<string>): (r: (string, string))
    // Nothing is lost or invented: the two arguments are only redistributed.
    ensures r.0 + r.1 == Arg(args, 1) + Arg(args, 2)
    ensures r.0 == Arg(args, 1) || r.0 == ""
    // The key moves to the length exactly for a lone number.
    ensures r.0 != Arg(args, 1) <==> Arg(args, 2) == "" && IsNumber(Arg(args, 1))
    ensures r.0 != Arg(args, 1) ==> IsNumber(r.1)
  {
    var key := Arg(args, 1);
    var length := Arg(args, 2);
    if length == "" && key != "" && IsNumber(key) then ("", key) else (key, length)
  }

  // ---------------------------------------------------------------------------------
  // hasPwRuleForSecret

  /** A password rule; its fields are not modelled. `Rule{}` is `NoRule`. */
  datatype Rule = Rule(spec: string)
  const NoRule := Rule("")

  /**
   * The deepest element of `segs` that has a rule, with that rule; ("", `NoRule`) when
   * none has one.
   */
  function DeepestRule(segs: seq<string>, lookupRule: string -> Option<Rule>): (string, Rule)
  {
    if |segs| == 0 then ("", NoRule)
    else
      var last := segs[|segs| - 1];
      match lookupRule(last)
      case Some(rule) => (last, rule)
      case None => DeepestRule(segs[..|segs| - 1], lookupRule)
  }

  /**
   * `DeepestRule` finds no rule exactly when no element has one; otherwise it returns an
   * element with its rule, and no later element has a rule.
   */
  lemma {:induction false} DeepestRuleFound(segs: seq<string>, lookupRule: string -> Option<Rule>)
    ensures (forall j :: 0 <= j < |segs| ==> lookupRule(segs[j]).None?) ==> DeepestRule(segs, lookupRule) == ("", NoRule)
    ensures (exists j :: 0 <= j < |segs| && lookupRule(segs[j]).Some?) ==>
              exists k :: 0 <= k < |segs| && segs[k] == DeepestRule(segs, lookupRule).0 &&
                lookupRule(segs[k]) == Some(DeepestRule(segs, lookupRule).1) &&
                forall j :: k < j < |segs| ==> lookupRule(segs[j]).None?
  {
    if |segs| > 0 {
      var n := |segs| - 1;
      var init := segs[..n];
      var r := DeepestRule(segs, lookupRule);
      if lookupRule(segs[n]).None? {
        DeepestRuleFound(init, lookupRule);
        assert r == DeepestRule(init, lookupRule);
        if exists j :: 0 <= j < |segs| && lookupRule(segs[j]).Some? {
          var j :| 0 <= j < |segs| && lookupRule(segs[j]).Some?;
          assert init[j] == segs[j];
          var k :| 0 <= k < |init| && init[k] == r.0 && lookupRule(init[k]) == Some(r.1) &&
                   forall j :: k < j < |init| ==> lookupRule(init[j]).None?;
          forall j | k < j < |segs| ensures lookupRule(segs[j]).None? {
            if j < n {
              assert init[j] == segs[j];
            }
          }
          assert segs[k] == init[k];
        } else {
          forall j | 0 <= j < |init| ensures lookupRule(init[j]).None? {
            assert init[j] == segs[j];
          }
        }
      } else {
        assert segs[n] == r.0;
      }
    }
  }

  /**
   * What `hasPwRuleForSecret` is meant to find for a name: nothing for "", "." and "/";
   * for a rooted name, what its relative part yields; otherwise the deepest element with
   * a rule.
   */
  function PwRuleFor(name: string, lookupRule: string -> Option<Rule>): (string, Rule)
    decreases |name|
  {
    if name == "" || name == "." || name == "/" then ("", NoRule)
    else if name[0] == '/' then PwRuleFor(name[1..], lookupRule)
    else DeepestRule(Split(name, '/'), lookupRule)
  }

  /** `path.Base` of a name that does not end in a slash is what follows its last slash. */
  lemma BaseWithoutTrailingSlash(p: string)
    requires p != "" && p[|p| - 1] != '/'
    ensures PathBase(p) == p[LastIndexOf(p, '/') + 1..]
  {
    var t := TrimRightChar(p, '/');
    assert |t| == |p|;
    assert p[..|p|] == p;
  }

  /** A clean relative name is neither empty nor "." and neither starts nor ends with a slash. */
  lemma CleanIsProper(n: string)
    requires CleanRelative(n)
    ensures n != "" && n != "." && n[0] != '/' && n[|n| - 1] != '/'
  {
    var i := LastIndexOf(n, '/');
    if i < 0 {
      assert Split(n, '/') == [n];
      assert n in Split(n, '/');
    } else {
      assert n[i] == '/';
      var tail := n[i + 1..];
      assert tail in Split(n, '/');
      assert n[|n| - 1] == tail[|tail| - 1];
    }
    SplitRooted(n, '/');
  }

  /** The elements of a name split at its last slash. */
  lemma SplitLast(n: string)
    requires LastIndexOf(n, '/') > 0
    ensures Split(n, '/') == Split(PathDir(n), '/') + [n[LastIndexOf(n, '/') + 1..]]
  {
    var i := LastIndexOf(n, '/');
    assert PathDir(n) == n[..i];
  }

  /**
   * One round of the loop in `hasPwRuleForSecret` on a clean relative name: the rule of
   * `path.Base(n)` if it has one, and otherwise whatever the parent yields. That the
   * parent is "." or a shorter clean name is `CleanParent`.
   */
  lemma PwRuleStep(n: string, lookupRule: string -> Option<Rule>)
    requires CleanRelative(n)
    ensures lookupRule(PathBase(n)).Some? ==> PwRuleFor(n, lookupRule) == (PathBase(n), lookupRule(PathBase(n)).value)
    ensures lookupRule(PathBase(n)).None? ==> PwRuleFor(PathDir(n), lookupRule) == PwRuleFor(n, lookupRule)
  {
    CleanParent(n);
    var segs := Split(n, '/');
    var i := LastIndexOf(n, '/');
    CleanIsProper(n);
    BaseWithoutTrailingSlash(n);
    if i < 0 {
      assert segs == [n];
      assert PathBase(n) == n[0..] == n;
      assert DeepestRule(segs[..0], lookupRule) == ("", NoRule);
    } else {
      assert i != 0;
      var dir := PathDir(n);
      var tail := n[i + 1..];
      SplitLast(n);
      assert PathBase(n) == tail;
      var ds := Split(dir, '/');
      assert forall e :: e in ds ==> e in segs;
      assert CleanRelative(dir);
      CleanIsProper(dir);
      assert segs[..|segs| - 1] == ds;
    }
  }

  /** The parent of a clean relative name is "." or a shorter clean relative name. */
  lemma CleanParent(m: string)
    requires CleanRelative(m)
    ensures PathDir(m) == "." || (CleanRelative(PathDir(m)) && |PathDir(m)| < |m|)
  {
    var i := LastIndexOf(m, '/');
    CleanIsProper(m);
    if i >= 0 {
      assert i != 0;
      SplitLast(m);
      var ds := Split(PathDir(m), '/');
      assert forall e :: e in ds ==> e in Split(m, '/');
    }
  }

  /** `path.Base` of a clean rooted name is that of its relative part. */
  lemma RootedBase(n: string)
    requires CleanRooted(n)
    ensures PathBase(n) == PathBase(n[1..])
  {
    var m := n[1..];
    CleanIsProper(m);
    LastIndexAfterFirst(n, '/');
    BaseWithoutTrailingSlash(n);
    BaseWithoutTrailingSlash(m);
    var j := LastIndexOf(m, '/');
    assert n[LastIndexOf(n, '/') + 1..] == m[j + 1..];
  }

  /** `path.Dir` of a clean rooted name is "/" followed by that of its relative part, or "/". */
  lemma RootedDir(n: string)
    requires CleanRooted(n)
    ensures PathDir(n[1..]) == "." ==> PathDir(n) == "/"
    ensures PathDir(n[1..]) != "." ==> PathDir(n) == "/" + PathDir(n[1..]) && CleanRelative(PathDir(n[1..]))
    ensures PathDir(n[1..]) != "." ==> |PathDir(n[1..])| < |n[1..]|
  {
    var m := n[1..];
    var j := LastIndexOf(m, '/');
    LastIndexAfterFirst(n, '/');
    if j < 0 {
      assert LastIndexOf(n, '/') == 0;
    } else {
      CleanIsProper(m);
      CleanParent(m);
      assert j != 0;
      assert LastIndexOf(n, '/') == 1 + j;
      assert PathDir(m) == m[..j];
      assert PathDir(n) == n[..1 + j] == "/" + m[..j];
      assert PathDir(m) != "." by {
        SplitLast(m);
        assert Split(".", '/') == ["."];
        var ds := Split(PathDir(m), '/');
        assert ds[0] in Split(m, '/');
      }
    }
  }

  /**
   * One round of the corrected loop on a clean rooted name: as on its relative part, with
   * "/" where the relative name reaches ".".
   */
  lemma PwRuleStepRooted(n: string, lookupRule: string -> Option<Rule>)
    requires CleanRooted(n)
    ensures lookupRule(PathBase(n)).Some? ==> PwRuleFor(n, lookupRule) == (PathBase(n), lookupRule(PathBase(n)).value)
    ensures lookupRule(PathBase(n)).None? ==> PwRuleFor(PathDir(n), lookupRule) == PwRuleFor(n, lookupRule)
    ensures PathDir(n) == "/" || (CleanRooted(PathDir(n)) && |PathDir(n)| < |n|)
  {
    var m := n[1..];
    assert PwRuleFor(n, lookupRule) == PwRuleFor(m, lookupRule);
    RootedBase(n);
    RootedDir(n);
    CleanParent(m);
    PwRuleStep(m, lookupRule);
    if PathDir(m) != "." {
      var d := PathDir(m);
      CleanIsProper(d);
      assert PathDir(n)[1..] == d;
      assert PwRuleFor(PathDir(n), lookupRule) == PwRuleFor(d, lookupRule);
    }
  }

  /**
   * `hasPwRuleForSecret` with the loop also stopping at "/": the rule of the deepest
   * element of the name that has one, consulting `path.Base` of the name and then of each
   * parent. Covers the clean names, relative and rooted.
   */
  method HasPwRuleForSecret(name: string, lookupRule: string -> Option<Rule>) returns (d: string, rule: Rule)
    requires name == "" || name == "." || name == "/" || CleanRelative(name) || CleanRooted(name)
    ensures (d, rule) == PwRuleFor(name, lookupRule)
  {
    var n := name;
    while n != "" && n != "." && n != "/"
      invariant n == "" || n == "." || n == "/" || CleanRelative(n) || CleanRooted(n)
      invariant PwRuleFor(n, lookupRule) == PwRuleFor(name, lookupRule)
      decreases if n == "." || n == "/" then 0 else |n| + 1
    {
      if CleanRooted(n) {
        PwRuleStepRooted(n, lookupRule);
      } else {
        CleanParent(n);
        PwRuleStep(n, lookupRule);
      }
      d := PathBase(n);
      var found := lookupRule(d);
      if found.Some? {
        return d, found.value;
      }
      n := PathDir(n);
    }
    return "", NoRule;
  }

  /**
   * The loop of `hasPwRuleForSecret` as written, which stops only at "" and ".", run for
   * at most `fuel` rounds: `None` when it has not returned by then.
   */
  function PwRuleLoop(n: string, lookupRule: string -> Option<Rule>, fuel: nat): (r: Option<(string, Rule)>)
    ensures fuel == 0 ==> r.None?
    ensures r.Some? ==> r.value == ("", NoRule) || (r.value.0 != "" && lookupRule(r.value.0) == Some(r.value.1))
    decreases fuel
  {
    if fuel == 0 then None
    else if n == "" || n == "." then Some(("", NoRule))
    else
      match lookupRule(PathBase(n))
      case Some(r) => Some((PathBase(n), r))
      case None => PwRuleLoop(PathDir(n), lookupRule, fuel - 1)
  }

  /** As written, the loop never leaves "/" when "/" has no rule: `path.Dir("/")` is "/". */
  lemma {:induction false} RootNeverReturns(lookupRule: string -> Option<Rule>, fuel: nat)
    requires lookupRule("/").None?
    ensures PwRuleLoop("/", lookupRule, fuel) == None
    decreases fuel
  {
    if fuel > 0 {
      assert "/"[..0] == "";
      assert TrimRightChar("/", '/') == "";
      assert LastIndexOf("/", '/') == 0;
      assert PathBase("/") == "/" && PathDir("/") == "/";
      RootNeverReturns(lookupRule, fuel - 1);
    }
  }

  /** As written, `/x` without rules for "x" and "/" runs forever: no fuel is enough. */
  lemma RootedNameNeverReturns(x: string, lookupRule: string -> Option<Rule>, fuel: nat)
    requires x != "" && '/' !in x
    requires lookupRule(x).None? && lookupRule("/").None?
    ensures PwRuleLoop("/" + x, lookupRule, fuel) == None
  {
    var n := "/" + x;
    LastIndexAfterFirst(n, '/');
    assert n[1..] == x;
    assert LastIndexOf(x, '/') < 0;
    BaseWithoutTrailingSlash(n);
    assert PathBase(n) == x;
    RootNeverReturns(lookupRule, if fuel == 0 then 0 else fuel - 1);
  }

  /** One round of the loop as written on a name other than "" and ".". */
  lemma LoopRound(n: string, lookupRule: string -> Option<Rule>, fuel: nat)
    requires fuel > 0 && n != "" && n != "."
    ensures lookupRule(PathBase(n)).Some? ==>
              PwRuleLoop(n, lookupRule, fuel) == Some((PathBase(n), lookupRule(PathBase(n)).value))
    ensures lookupRule(PathBase(n)).None? ==>
              PwRuleLoop(n, lookupRule, fuel) == PwRuleLoop(PathDir(n), lookupRule, fuel - 1)
  {
  }

  /** The loop as written agrees with `PwRuleFor` on `n` when it stops at `n` or at its parent ".". */
  lemma LoopAgreesAtStop(n: string, lookupRule: string -> Option<Rule>, fuel: nat)
    requires CleanRelative(n) && fuel > |n|
    requires lookupRule(PathBase(n)).Some? || PathDir(n) == "."
    ensures PwRuleLoop(n, lookupRule, fuel) == Some(PwRuleFor(n, lookupRule))
  {
    CleanIsProper(n);
    PwRuleStep(n, lookupRule);
    LoopRound(n, lookupRule, fuel);
  }

  /** The loop as written agrees with `PwRuleFor` on `n` once it does on the parent of `n`. */
  lemma LoopAgreesStep(n: string, lookupRule: string -> Option<Rule>, fuel: nat)
    requires CleanRelative(n) && fuel > |n|
    requires lookupRule(PathBase(n)).None?
    requires forall d | CleanRelative(d) && |d| < |n| ::
               PwRuleLoop(d, lookupRule, fuel - 1) == Some(PwRuleFor(d, lookupRule))
    ensures PwRuleLoop(n, lookupRule, fuel) == Some(PwRuleFor(n, lookupRule))
  {
    CleanIsProper(n);
    CleanParent(n);
    PwRuleStep(n, lookupRule);
    LoopRound(n, lookupRule, fuel);
  }

  /** On clean relative names the loop as written returns, with what the corrected one returns. */
  lemma {:induction false} LoopAgreesOnRelative(n: string, lookupRule: string -> Option<Rule>, fuel: nat)
    requires CleanRelative(n) && fuel > |n|
    ensures PwRuleLoop(n, lookupRule, fuel) == Some(PwRuleFor(n, lookupRule))
    decreases |n|, 1
  {
    if lookupRule(PathBase(n)).None? && PathDir(n) != "." {
      LoopAgreesViaParent(n, lookupRule, fuel);
    } else {
      LoopAgreesAtStop(n, lookupRule, fuel);
    }
  }

  /** `LoopAgreesOnRelative` for a name whose loop goes on to its parent. */
  lemma {:induction false} LoopAgreesViaParent(n: string, lookupRule: string -> Option<Rule>, fuel: nat)
    requires CleanRelative(n) && fuel > |n|
    requires lookupRule(PathBase(n)).None? && PathDir(n) != "."
    ensures PwRuleLoop(n, lookupRule, fuel) == Some(PwRuleFor(n, lookupRule))
    decreases |n|, 0
  {
    forall d | CleanRelative(d) && |d| < |n|
      ensures PwRuleLoop(d, lookupRule, fuel - 1) == Some(PwRuleFor(d, lookupRule))
    {
      LoopAgreesOnRelative(d, lookupRule, fuel - 1);
    }
    LoopAgreesStep(n, lookupRule, fuel);
  }

  // ---------------------------------------------------------------------------------
  // hasChangeURL

  /**
   * The first non-empty change URL among the elements `p[i]`, `p[i-1]`, ..., `p[1]`, or ""
   * when they have none. The element `p[0]` is never among them.
   */
  function ChangeURLFrom(p: seq<string>, i: int, lookupChangeURL: string -> string): string
    requires i < |p|
    decreases i
  {
    if i <= 0 then ""
    else if lookupChangeURL(p[i]) != "" then lookupChangeURL(p[i])
    else ChangeURLFrom(p, i - 1, lookupChangeURL)
  }

  /**
   * The URL found is the lookup of the deepest element from `p[1]` to `p[i]` that has a
   * non-empty one; it is empty exactly when none of them has one.
   */
  lemma {:induction false} ChangeURLFound(p: seq<string>, i: int, lookupChangeURL: string -> string)
    requires i < |p|
    ensures ChangeURLFrom(p, i, lookupChangeURL) == "" <==> forall j :: 1 <= j <= i ==> lookupChangeURL(p[j]) == ""
    ensures ChangeURLFrom(p, i, lookupChangeURL) != "" ==>
              exists k :: 1 <= k <= i && ChangeURLFrom(p, i, lookupChangeURL) == lookupChangeURL(p[k]) &&
                (forall j :: k < j <= i ==> lookupChangeURL(p[j]) == "")
    decreases i
  {
    if i > 0 && lookupChangeURL(p[i]) == "" {
      ChangeURLFound(p, i - 1, lookupChangeURL);
    }
  }

  /** `hasChangeURL`: the change URL of the deepest element below the first that has one. */
  method HasChangeURL(name: string, lookupChangeURL: string -> string) returns (u: string)
    ensures u == ChangeURLFrom(Split(name, '/'), |Split(name, '/')| - 1, lookupChangeURL)
  {
    var p := Split(name, '/');
    var i := |p| - 1;
    while i > 0
      invariant 0 <= i <= |p| - 1
      invariant ChangeURLFrom(p, i, lookupChangeURL) == ChangeURLFrom(p, |p| - 1, lookupChangeURL)
    {
      var v := lookupChangeURL(p[i]);
      if v != "" {
        return v;
      }
      i := i - 1;
    }
    return "";
  }

  /** The first element of the name (the top-level folder) has no say in the change URL. */
  lemma {:induction false} FirstElementIgnored(p: seq<string>, i: int, l1: string -> string, l2: string -> string)
    requires i < |p|
    requires forall j :: 1 <= j < |p| ==> l1(p[j]) == l2(p[j])
    ensures ChangeURLFrom(p, i, l1) == ChangeURLFrom(p, i, l2)
    decreases i
  {
    if i > 0 {
      FirstElementIgnored(p, i - 1, l1, l2);
    }
  }

  // ---------------------------------------------------------------------------------
  // setMetadata

  /** Some key of `ks` lower-cases to `key`. */
  ghost predicate Touched(ks: set<string>, key: string)
  {
    exists k :: k in ks && Lower(k) == key
  }

  /** No other key of `ks` lower-cases the same as `k`. */
  predicate LoneKey(ks: set<string>, k: string)
  {
    forall k' :: k' in ks && Lower(k') == Lower(k) ==> k' == k
  }

  /** A key that `KV.Set` refuses to overwrite. */
  predicate MultiValued(data: map<string, seq<string>>, key: string)
  {
    key in data && |data[key]| > 1
  }

  /**
   * What `Set` for the pairs `done` leaves of the data `orig`: keys no pair names keep
   * their values, multi-valued keys keep theirs, and every other named key holds the
   * single value of one of the pairs naming it.
   */
  ghost predicate SetSoFar(orig: map<string, seq<string>>, cur: map<string, seq<string>>,
                           done: set<string>, kvps: map<string, string>)
  {
    && (forall key :: !Touched(done, key) ==>
          (key in cur <==> key in orig) && Lookup(cur, key) == Lookup(orig, key))
    && (forall key :: MultiValued(orig, key) ==> key in cur && cur[key] == orig[key])
    && (forall key :: Touched(done, key) && !MultiValued(orig, key) ==>
          exists k :: k in done && k in kvps && Lower(k) == key && Lookup(cur, key) == [kvps[k]])
  }

  /**
   * `setMetadata` on a KV secret: `Set` for every pair, in map order, errors ignored.
   * A key no pair names keeps its values; a multi-valued key keeps its values; every
   * other named key ends with the single value of one of the pairs naming it, and with
   * the pair's own value when no other pair's key lower-cases the same.
   */
  method SetMetadata(sec: KV, kvps: map<string, string>)
    modifies sec
    ensures sec.body == old(sec.body) && sec.fromMime == old(sec.fromMime)
    ensures forall key :: !Touched(kvps.Keys, key) ==>
              (key in sec.data <==> key in old(sec.data)) && Lookup(sec.data, key) == Lookup(old(sec.data), key)
    ensures forall key :: MultiValued(old(sec.data), key) ==> key in sec.data && sec.data[key] == old(sec.data)[key]
    ensures forall key :: Touched(kvps.Keys, key) && !MultiValued(old(sec.data), key) ==>
              exists k :: k in kvps && Lower(k) == key && Lookup(sec.data, key) == [kvps[k]]
    ensures forall k :: k in kvps && LoneKey(kvps.Keys, k) && !MultiValued(old(sec.data), Lower(k)) ==>
              Lookup(sec.data, Lower(k)) == [kvps[k]]
  {
    var done: set<string> := {};
    var rest := kvps.Keys;
    while rest != {}
      invariant rest !! done && rest + done == kvps.Keys
      invariant sec.body == old(sec.body) && sec.fromMime == old(sec.fromMime)
      invariant SetSoFar(old(sec.data), sec.data, done, kvps)
      decreases |rest|
    {
      var k :| k in rest;
      SetPair(sec, k, kvps, old(sec.data), done);
      done := done + {k};
      rest := rest - {k};
    }
    SetMetadataDone(old(sec.data), sec.data, kvps);
  }

  /** One round of the loop of `setMetadata`: `Set` for the pair of `k`, its error ignored. */
  method SetPair(sec: KV, k: string, kvps: map<string, string>, ghost orig: map<string, seq<string>>, ghost done: set<string>)
    requires k in kvps && SetSoFar(orig, sec.data, done, kvps)
    modifies sec
    ensures sec.body == old(sec.body) && sec.fromMime == old(sec.fromMime)
    ensures SetSoFar(orig, sec.data, done + {k}, kvps)
  {
    ghost var before := sec.data;
    var _ := sec.Set(k, kvps[k]);
    SetMetadataStep(orig, before, sec.data, sec.body, done, k, kvps);
  }

  /** One `Set` keeps the loop invariant of `SetMetadata`. */
  lemma SetMetadataStep(
    orig: map<string, seq<string>>, before: map<string, seq<string>>, after: map<string, seq<string>>,
    body: string, done: set<string>, k: string, kvps: map<string, string>)
    requires k in kvps && SetSoFar(orig, before, done, kvps)
    requires SetKey(KVValue(before, body), k, kvps[k]).Err? ==> after == before
    requires SetKey(KVValue(before, body), k, kvps[k]).Ok? ==> after == SetKey(KVValue(before, body), k, kvps[k]).value.data
    ensures SetSoFar(orig, after, done + {k}, kvps)
  {
    var lk := Lower(k);
    assert MultiValued(before, lk) ==> after == before;
    assert !MultiValued(before, lk) ==> after == before[lk := [kvps[k]]];
    assert MultiValued(before, lk) <==> MultiValued(orig, lk) by {
      if !Touched(done, lk) {
      } else if !MultiValued(orig, lk) {
        var k' :| k' in done && k' in kvps && Lower(k') == lk && Lookup(before, lk) == [kvps[k']];
      }
    }
    forall key | Touched(done + {k}, key) && !MultiValued(orig, key)
      ensures exists k' :: k' in done + {k} && k' in kvps && Lower(k') == key && Lookup(after, key) == [kvps[k']]
    {
      if key == lk {
        assert Lookup(after, key) == [kvps[k]];
      } else {
        var k'' :| k'' in done + {k} && Lower(k'') == key;
        assert Touched(done, key);
        var k' :| k' in done && k' in kvps && Lower(k') == key && Lookup(before, key) == [kvps[k']];
        assert Lookup(after, key) == [kvps[k']];
      }
    }
    forall key | !Touched(done + {k}, key)
      ensures (key in after <==> key in orig) && Lookup(after, key) == Lookup(orig, key)
    {
      assert key != lk;
    }
  }

  /**
   * After every pair: the invariant read at the end of the loop, and a lone key holds its
   * own pair's value unless it was multi-valued.
   */
  lemma SetMetadataDone(orig: map<string, seq<string>>, cur: map<string, seq<string>>, kvps: map<string, string>)
    requires SetSoFar(orig, cur, kvps.Keys, kvps)
    ensures forall key :: !Touched(kvps.Keys, key) ==>
              (key in cur <==> key in orig) && Lookup(cur, key) == Lookup(orig, key)
    ensures forall key :: MultiValued(orig, key) ==> key in cur && cur[key] == orig[key]
    ensures forall key :: Touched(kvps.Keys, key) && !MultiValued(orig, key) ==>
              exists k :: k in kvps && Lower(k) == key && Lookup(cur, key) == [kvps[k]]
    ensures forall k :: k in kvps && LoneKey(kvps.Keys, k) && !MultiValued(orig, Lower(k)) ==>
              Lookup(cur, Lower(k)) == [kvps[k]]
  {
    forall k | k in kvps && LoneKey(kvps.Keys, k) && !MultiValued(orig, Lower(k))
      ensures Lookup(cur, Lower(k)) == [kvps[k]]
    {
      assert Touched(kvps.Keys, Lower(k));
      var k' :| k' in kvps && Lower(k') == Lower(k) && Lookup(cur, Lower(k)) == [kvps[k']];
    }
  }

  // ---------------------------------------------------------------------------------
  // The completion filters: extractEmails, extractDomains, uniq, filterPrefix.

  /** The elements of `s` that satisfy `keep`, in the order of `s`. */
  function Keep(s: seq<string>, keep: string -> bool): seq<string>
  {
    if |s| == 0 then []
    else Keep(s[..|s| - 1], keep) + (if keep(s[|s| - 1]) then [s[|s| - 1]] else [])
  }

  /** Each element that passes is kept as often as it occurs, and no other element is. */
  lemma {:induction false} KeepCounts(s: seq<string>, keep: string -> bool)
    ensures forall x :: multiset(Keep(s, keep))[x] == if keep(x) then multiset(s)[x] else 0
  {
    if |s| > 0 {
      var init := s[..|s| - 1];
      KeepCounts(init, keep);
      assert s == init + [s[|s| - 1]];
    }
  }

  /** Filtering commutes with concatenation: what is kept keeps its relative order. */
  lemma {:induction false} KeepConcat(a: seq<string>, b: seq<string>, keep: string -> bool)
    ensures Keep(a + b, keep) == Keep(a, keep) + Keep(b, keep)
    decreases |b|
  {
    if |b| == 0 {
      assert a + b == a;
    } else {
      var init := b[..|b| - 1];
      var last := b[|b| - 1];
      assert (a + b)[..|a + b| - 1] == a + init;
      assert (a + b)[|a + b| - 1] == last;
      KeepConcat(a, init, keep);
      var tail := if keep(last) then [last] else [];
      assert Keep(a + b, keep) == Keep(a, keep) + Keep(init, keep) + tail;
    }
  }

  /** `path.Base` of every entry. */
  function Bases(list: seq<string>): (r: seq<string>)
    ensures |r| == |list|
  {
    seq(|list|, i requires 0 <= i < |list| => PathBase(list[i]))
  }

  lemma BasesExtend(list: seq<string>, i: nat)
    requires i < |list|
    ensures Bases(list[..i + 1]) == Bases(list[..i]) + [PathBase(list[i])]
  {
  }

  lemma KeepExtend(s: seq<string>, x: string, keep: string -> bool)
    ensures Keep(s + [x], keep) == Keep(s, keep) + (if keep(x) then [x] else [])
  {
    assert (s + [x])[..|s|] == s;
  }

  /** What `extractEmails` keeps: a last element with an "@" or a "_" in it. */
  predicate EmailLike(e: string)
  {
    '@' in e || '_' in e
  }

  /** `extractEmails`: the last element of each entry that looks like an e-mail address, in order. */
  method ExtractEmails(list: seq<string>) returns (results: seq<string>)
    ensures results == Keep(Bases(list), EmailLike)
  {
    results := [];
    var i := 0;
    while i < |list|
      invariant 0 <= i <= |list|
      invariant results == Keep(Bases(list[..i]), EmailLike)
    {
      var e := PathBase(list[i]);
      BasesExtend(list, i);
      KeepExtend(Bases(list[..i]), e, EmailLike);
      if EmailLike(e) {
        results := results + [e];
      }
      i := i + 1;
    }
    assert list[..i] == list;
  }

  /**
   * `extractDomains`: the last element of each entry that `isDomain` accepts, in order.
   * `isDomain` stands for the `reDomain` regular expression.
   */
  method ExtractDomains(list: seq<string>, isDomain: string -> bool) returns (results: seq<string>)
    ensures results == Keep(Bases(list), isDomain)
  {
    results := [];
    var i := 0;
    while i < |list|
      invariant 0 <= i <= |list|
      invariant results == Keep(Bases(list[..i]), isDomain)
    {
      var e := PathBase(list[i]);
      BasesExtend(list, i);
      KeepExtend(Bases(list[..i]), e, isDomain);
      if isDomain(e) {
        results := results + [e];
      }
      i := i + 1;
    }
    assert list[..i] == list;
  }

  /** `uniq`: every distinct element once, in ascending order. */
  method Uniq(input: seq<string>) returns (out: seq<string>)
    ensures StrictlySorted(out) && Elems(out) == Elems(input)
    ensures out == SortedElems(Elems(input))
  {
    var seen: set<string> := {};
    var i := 0;
    while i < |input|
      invariant 0 <= i <= |input|
      invariant seen == Elems(input[..i])
    {
      assert input[..i + 1] == input[..i] + [input[i]];
      seen := seen + {input[i]};
      i := i + 1;
    }
    assert input[..i] == input;
    out := SortedSlice(seen);
  }

  /** The test `filterPrefix` applies. */
  function StartsWith(prefix: string): string -> bool
  {
    e => HasPrefix(e, prefix)
  }

  /** `filterPrefix`: the elements that start with `prefix`, in order. */
  method FilterPrefix(input: seq<string>, prefix: string) returns (out: seq<string>)
    ensures out == Keep(input, StartsWith(prefix))
    ensures forall x :: x in out <==> x in input && HasPrefix(x, prefix)
  {
    out := [];
    var i := 0;
    while i < |input|
      invariant 0 <= i <= |input|
      invariant out == Keep(input[..i], StartsWith(prefix))
    {
      assert input[..i + 1] == input[..i] + [input[i]];
      KeepExtend(input[..i], input[i], StartsWith(prefix));
      if HasPrefix(input[i], prefix) {
        out := out + [input[i]];
      }
      i := i + 1;
    }
    assert input[..i] == input;
    KeepCounts(input, StartsWith(prefix));
    forall x ensures x in out <==> x in input && HasPrefix(x, prefix) {
      assert x in out <==> x in multiset(out);
      assert x in input <==> x in multiset(input);
    }
  }

  /** Filtering keeps a strictly ascending sequence strictly ascending. */
  lemma {:induction false} KeepSorted(s: seq<string>, keep: string -> bool)
    requires StrictlySorted(s)
    ensures StrictlySorted(Keep(s, keep))
    decreases |s|
  {
    if |s| > 0 {
      var init, last := s[..|s| - 1], s[|s| - 1];
      assert StrictlySorted(init) by {
        forall i, j | 0 <= i < j < |init| ensures Less(init[i], init[j]) {
          assert init[i] == s[i] && init[j] == s[j];
        }
      }
      KeepSorted(init, keep);
      if keep(last) {
        var k := Keep(init, keep);
        KeepCounts(init, keep);
        forall i | 0 <= i < |k| ensures Less(k[i], last) {
          assert k[i] in multiset(k);
          assert k[i] in multiset(init);
          var j :| 0 <= j < |init| && init[j] == k[i];
          assert s[j] == init[j];
        }
        var r := k + [last];
        forall i, j | 0 <= i < j < |r| ensures Less(r[i], r[j]) {
          if j < |k| {
            assert r[i] == k[i] && r[j] == k[j];
          } else {
            assert r[i] == k[i];
          }
        }
      }
    }
  }

  /** An element is kept exactly when it occurs and passes. */
  lemma KeepMembers(s: seq<string>, keep: string -> bool)
    ensures forall x :: x in Keep(s, keep) <==> x in s && keep(x)
  {
    KeepCounts(s, keep);
    forall x ensures x in Keep(s, keep) <==> x in s && keep(x) {
      assert x in Keep(s, keep) <==> x in multiset(Keep(s, keep));
      assert x in s <==> x in multiset(s);
    }
  }

  /** `uniq` and then `filterPrefix`: the distinct elements with the prefix, ascending. */
  lemma UniqThenFilter(found: seq<string>, prefix: string)
    ensures StrictlySorted(Keep(SortedElems(Elems(found)), StartsWith(prefix)))
    ensures forall x :: x in Keep(SortedElems(Elems(found)), StartsWith(prefix)) <==> x in found && HasPrefix(x, prefix)
  {
    var sorted := SortedElems(Elems(found));
    KeepSorted(sorted, StartsWith(prefix));
    KeepMembers(sorted, StartsWith(prefix));
    forall x ensures x in sorted <==> x in found {
      assert x in sorted <==> x in Elems(sorted);
    }
  }

  /**
   * What completion offers (`filterPrefix(uniq(extract...(list)), prefix)`): each last
   * element of an entry that the extractor keeps and that starts with the prefix, once,
   * in ascending order, and nothing else.
   */
  lemma CompletionCandidates(list: seq<string>, keep: string -> bool, prefix: string)
    ensures StrictlySorted(Keep(SortedElems(Elems(Keep(Bases(list), keep))), StartsWith(prefix)))
    ensures forall x :: x in Keep(SortedElems(Elems(Keep(Bases(list), keep))), StartsWith(prefix)) <==>
                        x in Bases(list) && keep(x) && HasPrefix(x, prefix)
  {
    UniqThenFilter(Keep(Bases(list), keep), prefix);
    KeepMembers(Bases(list), keep);
  }
}

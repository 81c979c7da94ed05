/** Collision-checked registration of command names under the fixed command directories. Names are
  * arbitrary strings: those that packages declare are not checked before they get here. */
module Catalog {
  import opened Paths

  datatype Target = Target(package: string, command: string)

  datatype Registration = Registration(alias: string, target: Target)

  /** A path as the map compares it: its components, without empty ones and ".". */
  type Key = seq<string>

  datatype Registered = Registered(paths: map<Key, Target>) | Collision

  const BIN: Key := ["bin"]
  const USR_BIN: Key := ["usr", "bin"]
  const PREFIXES: seq<Key> := [BIN, USR_BIN]

  function Kept(parts: seq<string>): Key {
    if parts == [] then [] else
      (if parts[0] == "" || parts[0] == "." then [] else [parts[0]]) + Kept(parts[1..])
  }

  function Parts(name: string): Key { Kept(Split(name)) }

  /** Path::join: an absolute name replaces the prefix. */
  function JoinPath(prefix: Key, name: string): Key {
    if Relative(name) then prefix + Parts(name) else Parts(name)
  }

  /** The paths a name is registered at. */
  function Keys(name: string): set<Key> { {JoinPath(BIN, name), JoinPath(USR_BIN, name)} }

  // ---------------------------------------------------------------- the specification

  /** Both registrations want some path, for different targets. */
  ghost predicate Clash(r: Registration, s: Registration) {
    !(Keys(r.alias) !! Keys(s.alias)) && r.target != s.target
  }

  ghost predicate Consistent(rs: seq<Registration>) {
    forall i, j :: 0 <= i < |rs| && 0 <= j < |rs| ==> !Clash(rs[i], rs[j])
  }

  /** The map holds exactly the paths of the registered names, each with its target. */
  ghost predicate Catalogues(paths: map<Key, Target>, rs: seq<Registration>) {
    && (forall i, k :: 0 <= i < |rs| && k in Keys(rs[i].alias) ==> k in paths && paths[k] == rs[i].target)
    && (forall k :: k in paths ==> exists i :: 0 <= i < |rs| && k in Keys(rs[i].alias))
  }

  /** At most one map fits, and it depends only on which registrations there are, not on their
    * order or number. */
  lemma {:induction false} CatalogueUnique(p: map<Key, Target>, q: map<Key, Target>, rs: seq<Registration>, ss: seq<Registration>)
    requires Catalogues(p, rs) && Catalogues(q, ss) && forall r :: r in rs <==> r in ss
    ensures p == q
  {
    hide Catalogues;
    Included(p, q, rs, ss);
    Included(q, p, ss, rs);
    assert p.Keys == q.Keys;
  }

  lemma {:induction false} Included(p: map<Key, Target>, q: map<Key, Target>, rs: seq<Registration>, ss: seq<Registration>)
    requires Catalogues(p, rs) && Catalogues(q, ss) && forall r :: r in rs ==> r in ss
    ensures forall k :: k in p ==> k in q && q[k] == p[k]
  {
    hide Keys;
    forall k | k in p ensures k in q && q[k] == p[k] {
      var i :| 0 <= i < |rs| && k in Keys(rs[i].alias);
      assert rs[i] in ss;
      var j :| 0 <= j < |ss| && ss[j] == rs[i];
    }
  }

  // ---------------------------------------------------------------- when names clash

  lemma {:induction false} PartsOfName(name: string)
    requires IsName(name)
    ensures Relative(name) && Parts(name) == [name]
  {
    SplitName(name);
    assert [name][1..] == [] && Kept([]) == [];
    assert Kept([name]) == [name] + Kept([]);
    assert name[0] in name;
  }

  lemma {:induction false} KeptAppend(a: seq<string>, b: seq<string>)
    ensures Kept(a + b) == Kept(a) + Kept(b)
  {
    if a == [] {
      assert a + b == b;
    } else {
      assert (a + b)[1..] == a[1..] + b;
      KeptAppend(a[1..], b);
    }
  }

  /** How paths compare: part by part, where an empty part or "." is nothing and ".." is kept. */
  lemma {:induction false} PartsByComponent(a: string, c: string)
    requires '/' !in c
    ensures Parts(a + "/" + c) == Parts(a) + if c == "" || c == "." then [] else [c]
    ensures Parts(c) == if c == "" || c == "." then [] else [c]
  {
    SplitJoin(a, c);
    SplitName(c);
    KeptAppend(Split(a), [c]);
    assert [c][1..] == [] && Kept([]) == [];
    assert Kept([c]) == (if c == "" || c == "." then [] else [c]) + Kept([]);
  }

  /** A plain name is registered at "/bin/name" and "/usr/bin/name", any absolute name at itself alone. */
  lemma {:induction false} KeysAre(name: string)
    ensures IsName(name) ==> Keys(name) == {["bin", name], ["usr", "bin", name]}
    ensures !Relative(name) ==> Keys(name) == {Parts(name)}
  {
    if IsName(name) {
      PartsOfName(name);
      assert BIN + [name] == ["bin", name] && USR_BIN + [name] == ["usr", "bin", name];
    }
  }

  lemma JoinInjective(a: Key, b: Key)
    ensures BIN + a == BIN + b <==> a == b
    ensures USR_BIN + a == USR_BIN + b <==> a == b
    ensures BIN + a != USR_BIN + b
  {
    assert (BIN + a)[1..] == a && (BIN + b)[1..] == b;
    assert (USR_BIN + a)[2..] == a && (USR_BIN + b)[2..] == b;
    assert (BIN + a)[0] != (USR_BIN + b)[0];
  }

  /** Relative names share a path iff they have the same components: "x", "./x" and "x/" do. */
  lemma {:induction false} RelativeShareIff(a: string, b: string)
    requires Relative(a) && Relative(b)
    ensures !(Keys(a) !! Keys(b)) <==> Parts(a) == Parts(b)
  {
    hide Parts;
    JoinInjective(Parts(a), Parts(b));
    JoinInjective(Parts(b), Parts(a));
    assert JoinPath(BIN, a) in Keys(a) && JoinPath(BIN, b) in Keys(b);
  }

  /** For plain names, then: a list is consistent iff no name has two different targets. */
  lemma {:induction false} PlainConsistentIff(rs: seq<Registration>)
    requires forall i :: 0 <= i < |rs| ==> IsName(rs[i].alias)
    ensures Consistent(rs)
       <==> forall i, j :: 0 <= i < |rs| && 0 <= j < |rs| && rs[i].alias == rs[j].alias ==> rs[i].target == rs[j].target
  {
    hide Keys, Parts, Relative, IsName;
    forall i, j | 0 <= i < |rs| && 0 <= j < |rs|
      ensures Clash(rs[i], rs[j]) <==> rs[i].alias == rs[j].alias && rs[i].target != rs[j].target
    {
      PartsOfName(rs[i].alias);
      PartsOfName(rs[j].alias);
      RelativeShareIff(rs[i].alias, rs[j].alias);
    }
  }

  // ---------------------------------------------------------------- the two directories

  ghost predicate NamedRelative(rs: seq<Registration>, c: Key) {
    exists i :: 0 <= i < |rs| && Relative(rs[i].alias) && Parts(rs[i].alias) == c
  }

  ghost predicate NamedAbsolute(rs: seq<Registration>, k: Key) {
    exists i :: 0 <= i < |rs| && !Relative(rs[i].alias) && Parts(rs[i].alias) == k
  }

  lemma {:induction false} KeyFrom(rs: seq<Registration>, c: Key)
    ensures (exists i :: 0 <= i < |rs| && BIN + c in Keys(rs[i].alias)) <==> NamedRelative(rs, c) || NamedAbsolute(rs, BIN + c)
    ensures (exists i :: 0 <= i < |rs| && USR_BIN + c in Keys(rs[i].alias)) <==> NamedRelative(rs, c) || NamedAbsolute(rs, USR_BIN + c)
  {
    hide Parts, Relative;
    forall i | 0 <= i < |rs|
      ensures BIN + c in Keys(rs[i].alias) <==> Parts(rs[i].alias) == if Relative(rs[i].alias) then c else BIN + c
      ensures USR_BIN + c in Keys(rs[i].alias) <==> Parts(rs[i].alias) == if Relative(rs[i].alias) then c else USR_BIN + c
    {
      JoinInjective(c, Parts(rs[i].alias));
      JoinInjective(Parts(rs[i].alias), c);
    }
  }

  /** "/bin/x" and "/usr/bin/x" are registered together and agree if a relative name put them there;
    * otherwise each is there iff an absolute name spells it out, and only those can tell them apart. */
  lemma {:induction false} DirectoriesAgree(paths: map<Key, Target>, rs: seq<Registration>, c: Key)
    requires Catalogues(paths, rs)
    ensures NamedRelative(rs, c) ==> BIN + c in paths && USR_BIN + c in paths && paths[BIN + c] == paths[USR_BIN + c]
    ensures !NamedRelative(rs, c) ==>
              (BIN + c in paths <==> NamedAbsolute(rs, BIN + c)) && (USR_BIN + c in paths <==> NamedAbsolute(rs, USR_BIN + c))
    ensures (forall i :: 0 <= i < |rs| ==> Relative(rs[i].alias)) ==>
              && (BIN + c in paths <==> USR_BIN + c in paths)
              && (BIN + c in paths ==> paths[BIN + c] == paths[USR_BIN + c])
  {
    hide Parts, Relative;
    KeyFrom(rs, c);
    if i :| 0 <= i < |rs| && Relative(rs[i].alias) && Parts(rs[i].alias) == c {
      assert JoinPath(BIN, rs[i].alias) in Keys(rs[i].alias) && JoinPath(USR_BIN, rs[i].alias) in Keys(rs[i].alias);
    } else {
      InMapIff(paths, rs, BIN + c);
      InMapIff(paths, rs, USR_BIN + c);
    }
  }

  lemma {:induction false} InMapIff(paths: map<Key, Target>, rs: seq<Registration>, k: Key)
    requires Catalogues(paths, rs)
    ensures k in paths <==> exists i :: 0 <= i < |rs| && k in Keys(rs[i].alias)
    ensures forall i :: 0 <= i < |rs| && k in Keys(rs[i].alias) ==> paths[k] == rs[i].target
  {
    hide Keys;
  }

  // ---------------------------------------------------------------- the implementation

  ghost predicate Clashes(rs: seq<Registration>, r: Registration) {
    exists i :: 0 <= i < |rs| && Clash(rs[i], r)
  }

  function Added(paths: map<Key, Target>, r: Registration): map<Key, Target> {
    paths[JoinPath(BIN, r.alias) := r.target][JoinPath(USR_BIN, r.alias) := r.target]
  }

  lemma {:induction false} AddedCatalogues(paths: map<Key, Target>, done: seq<Registration>, r: Registration)
    requires Catalogues(paths, done) && !Clashes(done, r)
    ensures Catalogues(Added(paths, r), done + [r])
  {
    hide JoinPath;
    var rs, after := done + [r], Added(paths, r);
    forall i, k | 0 <= i < |rs| && k in Keys(rs[i].alias) ensures k in after && after[k] == rs[i].target {
      if i < |done| {
        assert rs[i] == done[i];
        assert !Clash(done[i], r);
      }
    }
    forall k | k in after ensures exists i :: 0 <= i < |rs| && k in Keys(rs[i].alias) {
      if k in Keys(r.alias) {
        assert rs[|done|] == r;
      } else {
        var i :| 0 <= i < |done| && k in Keys(done[i].alias);
        assert rs[i] == done[i];
      }
    }
  }

  /** The path is taken by another target iff some earlier registration says so. */
  lemma {:induction false} TakenIff(paths: map<Key, Target>, done: seq<Registration>, r: Registration)
    requires Catalogues(paths, done)
    ensures Clashes(done, r) <==> exists k :: k in Keys(r.alias) && k in paths && paths[k] != r.target
  {
    hide Keys;
    if Clashes(done, r) {
      var i :| 0 <= i < |done| && Clash(done[i], r);
      var k :| k in Keys(done[i].alias) && k in Keys(r.alias);
      assert paths[k] == done[i].target;
    }
    if k :| k in Keys(r.alias) && k in paths && paths[k] != r.target {
      var i :| 0 <= i < |done| && k in Keys(done[i].alias);
      assert Clash(done[i], r);
    }
  }

  /** One alias under every prefix; stops at the first path that another target has taken. */
  method RegisterAlias(alias: string, target: Target, paths: map<Key, Target>, ghost done: seq<Registration>)
    returns (r: Registered)
    requires Catalogues(paths, done)
    ensures r == if Clashes(done, Registration(alias, target)) then Collision
                 else Registered(Added(paths, Registration(alias, target)))
  {
    hide JoinPath, Catalogues, Clashes;
    TakenIff(paths, done, Registration(alias, target));
    var current := paths;
    var i := 0;
    while i < |PREFIXES|
      invariant 0 <= i <= 2
      invariant i == 0 ==> current == paths
      invariant i == 1 ==> current == paths[JoinPath(BIN, alias) := target]
      invariant i == 2 ==> current == Added(paths, Registration(alias, target))
      invariant i > 0 && JoinPath(BIN, alias) in paths ==> paths[JoinPath(BIN, alias)] == target
      invariant i > 1 && JoinPath(USR_BIN, alias) in paths ==> paths[JoinPath(USR_BIN, alias)] == target
    {
      var path := JoinPath(PREFIXES[i], alias);
      if path in current {
        if current[path] != target { return Collision; }
      } else {
        current := current[path := target];
      }
      i := i + 1;
    }
    r := Registered(current);
  }

  /** The outcome that a list of registrations must have. */
  ghost predicate OutcomeOf(rs: seq<Registration>, r: Registered) {
    && (r.Registered? <==> Consistent(rs))
    && (r.Registered? ==> Catalogues(r.paths, rs))
  }

  /** Registering a list succeeds iff it is consistent, and then catalogues exactly the list. */
  method RegisterAll(rs: seq<Registration>) returns (r: Registered)
    ensures OutcomeOf(rs, r)
  {
    hide Catalogues, Clashes, Consistent;
    var paths: map<Key, Target> := map[];
    NothingRegistered();
    assert rs[..0] == [];
    for i := 0 to |rs|
      invariant Catalogues(paths, rs[..i]) && Consistent(rs[..i])
    {
      assert rs[..i + 1] == rs[..i] + [rs[i]];
      var step := RegisterAlias(rs[i].alias, rs[i].target, paths, rs[..i]);
      assert Registration(rs[i].alias, rs[i].target) == rs[i];
      ConsistentSnoc(rs[..i], rs[i]);
      if step.Collision? {
        InconsistentPrefix(rs, i + 1);
        return Collision;
      }
      AddedCatalogues(paths, rs[..i], rs[i]);
      paths := step.paths;
    }
    assert rs[..|rs|] == rs;
    r := Registered(paths);
  }

  lemma NothingRegistered()
    ensures Catalogues(map[], []) && Consistent([])
  {
  }

  lemma {:induction false} ConsistentSnoc(done: seq<Registration>, r: Registration)
    requires Consistent(done)
    ensures Consistent(done + [r]) <==> !Clashes(done, r)
  {
    hide Keys;
    var rs := done + [r];
    if Clashes(done, r) {
      var i :| 0 <= i < |done| && Clash(done[i], r);
      assert Clash(rs[i], rs[|done|]);
    } else {
      forall i, j | 0 <= i < |rs| && 0 <= j < |rs| ensures !Clash(rs[i], rs[j]) {
        if i < |done| && j < |done| { assert !Clash(done[i], done[j]); }
        if i < |done| { assert !Clash(done[i], r); }
        if j < |done| { assert !Clash(done[j], r); }
      }
    }
  }

  lemma {:induction false} InconsistentPrefix(rs: seq<Registration>, n: nat)
    requires n <= |rs| && !Consistent(rs[..n])
    ensures !Consistent(rs)
  {
    hide Clash;
    var i, j :| 0 <= i < n && 0 <= j < n && Clash(rs[..n][i], rs[..n][j]);
    assert Clash(rs[i], rs[j]);
  }

  lemma {:induction false} SameElements(rs: seq<Registration>, ss: seq<Registration>)
    requires multiset(rs) == multiset(ss)
    ensures forall r :: r in rs <==> r in ss
  {
    forall r ensures r in rs <==> r in ss {
      assert r in rs <==> r in multiset(rs);
      assert r in ss <==> r in multiset(ss);
    }
  }

  lemma {:induction false} ConsistentBySet(rs: seq<Registration>, ss: seq<Registration>)
    requires Consistent(rs) && forall r :: r in ss ==> r in rs
    ensures Consistent(ss)
  {
    hide Clash;
    forall i, j | 0 <= i < |ss| && 0 <= j < |ss| ensures !Clash(ss[i], ss[j]) {
      assert ss[i] in rs && ss[j] in rs;
      var k :| 0 <= k < |rs| && rs[k] == ss[i];
      var l :| 0 <= l < |rs| && rs[l] == ss[j];
      assert !Clash(rs[k], rs[l]);
    }
  }

  /** Order does not matter: any permutation of the registrations has the same outcome. */
  lemma {:induction false} RegistrationIsConfluent(rs: seq<Registration>, ss: seq<Registration>, r: Registered, s: Registered)
    requires multiset(rs) == multiset(ss) && OutcomeOf(rs, r) && OutcomeOf(ss, s)
    ensures r == s
  {
    hide Consistent, Catalogues;
    SameElements(rs, ss);
    if Consistent(rs) { ConsistentBySet(rs, ss); }
    if Consistent(ss) { ConsistentBySet(ss, rs); }
    if r.Registered? { CatalogueUnique(r.paths, s.paths, rs, ss); }
  }
}

/** When the peers that a lookup returns are those that truly want the message. */
module TrueAnswers {
  import opened Options
  import opened BindingKey
  import opened PeerList
  import opened Trie
  import opened Routing
  import opened Subscriptions

  /** The peer has a subscription with the empty key or with one that truly matches. */
  ghost predicate Wants(subs: Registry, id: string, q: Path) {
    exists s :: IsWanted(subs, s, id, q)
  }

  ghost predicate IsWanted(subs: Registry, s: Sub, id: string, q: Path) {
    s in subs && s.id == id && (s.key == [] || TrulyMatches(s.key, q))
  }

  /** Every peer with a routed subscription wants the message, for every query without wildcards. */
  ghost predicate AnswersTrue(subs: Registry) {
    forall s, q :: WildFree(q) && Routed(subs, s, q) ==> Wants(subs, s.id, q)
  }

  /** The query that goes along the key up to `j`, and from there on, up to length `n`, with fragments that no key has. */
  function Probe(k: Path, j: nat, n: nat, free: string): (q: Path)
    requires j <= |k| && j <= n
    ensures |q| == n && forall i :: 0 <= i < n ==> q[i] == if i < j && k[i] != "*" then k[i] else free
  {
    seq(n, i requires 0 <= i < n => if i < j && k[i] != "*" then k[i] else free)
  }

  /** The fragment is in no live key, and no wildcard. */
  ghost predicate IsFree(subs: Registry, free: string) {
    !IsWild(free) && forall k <- Live(subs) :: free !in k
  }

  /** Whoever has a subscription below the first `#` of a live key wants all that the `#` stands for. */
  ghost predicate SharpsWanted(subs: Registry, free: string) {
    forall s, k, j, n :: IsBelowSharp(subs, s, k, j) && j < n ==> Wants(subs, s.id, Probe(k, j, n, free))
  }

  ghost predicate IsBelowSharp(subs: Registry, s: Sub, k: Path, j: int) {
    s in subs && s.key != [] && k in Live(subs) && IsFirstSharp(k, j) && k[..j] <= s.key
  }

  /** A key that has no `free` in it and truly matches the probe truly matches every query that the prefix matches. */
  lemma {:induction false} ProbeIsGeneral(w: Path, k: Path, j: nat, q: Path, free: string)
    requires j <= |k| && j <= |q| && Matches(k[..j], q[..j]) && "#" !in k[..j] && free !in w && free != "#"
    requires TrulyMatches(w, Probe(k, j, |q|, free))
    ensures TrulyMatches(w, q)
    decreases |w|
  {
    var p := Probe(k, j, |q|, free);
    if w == [] || q == [] {
    } else if w[0] == "#" {
    } else {
      assert w[0] in w && (w[0] == "*" || w[0] == p[0]);
      if j > 0 {
        MatchesStep(k[..j], q[..j]);
        assert k[..j][1..] == k[1..][..j - 1] && q[..j][1..] == q[1..][..j - 1];
        assert p[1..] == Probe(k[1..], j - 1, |q| - 1, free);
        assert k[..j][0] == k[0];
        ProbeIsGeneral(w[1..], k[1..], j - 1, q[1..], free);
      } else {
        assert p[1..] == Probe(k, 0, |q| - 1, free);
        assert k[..0] == [] && q[1..][..0] == [];
        ProbeIsGeneral(w[1..], k, 0, q[1..], free);
      }
    }
  }

  /** A routed subscription matches, or is below the first `#` of a live key that goes along the query. */
  lemma RoutedIsBelowSharp(subs: Registry, s: Sub, q: Path) returns (k: Path, j: nat)
    requires WildFree(q) && Routed(subs, s, q) && s.key != [] && !Matches(s.key, q)
    ensures IsBelowSharp(subs, s, k, j) && j < |q| && Matches(k[..j], q[..j])
  {
    hide Live, TrulyMatches;
    var p :| IsSharpPoint(Live(subs), s.key, q, p);
    SharpPointsAreIndices(Live(subs), s.key, q, p);
    j := p;
    k :| k in Live(subs) && |s.key[..j]| < |k| && k[..|s.key[..j]|] == s.key[..j] && k[|s.key[..j]|] == "#";
    assert forall i :: 0 <= i < j ==> s.key[..j][i] != "#";
  }

  lemma WantedByProbe(subs: Registry, id: string, k: Path, j: nat, q: Path, free: string)
    requires IsFree(subs, free) && j <= |k| && j <= |q| && Matches(k[..j], q[..j]) && "#" !in k[..j]
    requires Wants(subs, id, Probe(k, j, |q|, free))
    ensures Wants(subs, id, q)
  {
    hide Matches, TrulyMatches;
    var w :| IsWanted(subs, w, id, Probe(k, j, |q|, free));
    if w.key != [] {
      assert w.key in Live(subs);
      ProbeIsGeneral(w.key, k, j, q, free);
    }
    assert IsWanted(subs, w, id, q);
  }

  /** The probe itself is a query without wildcards that is routed to the subscription. */
  lemma ProbeIsRouted(subs: Registry, s: Sub, k: Path, j: nat, n: nat, free: string)
    requires IsFree(subs, free) && IsBelowSharp(subs, s, k, j) && j < n
    ensures WildFree(Probe(k, j, n, free)) && Routed(subs, s, Probe(k, j, n, free))
  {
    hide Live;
    var q, w := Probe(k, j, n, free), s.key;
    assert forall i :: 0 <= i < j ==> k[..j][i] == k[i] && k[..j][i] in k[..j];
    assert w[..j] == k[..j];
    assert Matches(w[..j], q[..j]);
    assert k[..|w[..j]|] == w[..j] && k[|w[..j]|] == "#";
    assert IsSharpPoint(Live(subs), w, q, j);
  }

  /** Every peer that is returned wants the message if and only if whoever is below a `#` wants all that the `#` stands for. */
  lemma TrueIffSharpsWanted(subs: Registry, free: string)
    requires IsFree(subs, free)
    ensures AnswersTrue(subs) <==> SharpsWanted(subs, free)
  {
    hide Routed, Wants, IsFree, WildFree;
    if SharpsWanted(subs, free) {
      forall s, q | WildFree(q) && Routed(subs, s, q)
        ensures Wants(subs, s.id, q)
      {
        RoutedIsWanted(subs, s, q, free);
      }
    }
    if AnswersTrue(subs) {
      forall s, k, j, n | IsBelowSharp(subs, s, k, j) && j < n
        ensures Wants(subs, s.id, Probe(k, j, n, free))
      {
        ProbeIsRouted(subs, s, k, j, n, free);
      }
    }
  }

  lemma RoutedIsWanted(subs: Registry, s: Sub, q: Path, free: string)
    requires IsFree(subs, free) && SharpsWanted(subs, free) && WildFree(q) && Routed(subs, s, q)
    ensures Wants(subs, s.id, q)
  {
    hide IsBelowSharp, IsFree, WildFree, Matches, TrulyMatches;
    if s.key == [] {
      assert IsWanted(subs, s, s.id, q);
    } else if Matches(s.key, q) {
      MatchIsTrue(s.key, q);
      assert IsWanted(subs, s, s.id, q);
    } else {
      var k, j := RoutedIsBelowSharp(subs, s, q);
      assert IsBelowSharp(subs, s, k, j);
      BelowSharpFacts(subs, s, k, j);
      WantedByProbe(subs, s.id, k, j, q, free);
    }
  }

  lemma BelowSharpFacts(subs: Registry, s: Sub, k: Path, j: nat)
    requires IsBelowSharp(subs, s, k, j)
    ensures j < |k| && "#" !in k[..j]
  {
  }

  // ----- what lookups return -----

  /** After the run, every lookup without wildcards returns only ids of peers that want the message. */
  ghost predicate LooksUpTrue(ops: seq<Op>)
    requires AllowedRun(EmptyTree(), ops)
  {
    forall q: Path, id: string :: WildFree(q) && q != [] && Has(Lookup(Run(EmptyTree(), ops), Some(q)), id) ==>
      Wants(Registered(map[], ops), id, q)
  }

  lemma NoSharpAlone(q: Path)
    requires WildFree(q) && q != []
    ensures q != ["#"] && WildsLast(q[0], q)
  {
    assert q[0] in q;
    WildcardFree(q[0], q);
  }

  /** After an allowed run, lookups without wildcards return exactly the peers that want the message if and only if whoever is
      below a `#` wants all that the `#` stands for. */
  lemma LookupsAreTrueIff(ops: seq<Op>, free: string)
    requires AllowedRun(EmptyTree(), ops) && IsFree(Registered(map[], ops), free)
    ensures LooksUpTrue(ops) <==> SharpsWanted(Registered(map[], ops), free)
  {
    hide Routed, Wants, SharpsWanted, WildFree, Lookup, Run, AllowedRun, Registered, IsFree, WildsLast;
    var subs := Registered(map[], ops);
    TrueIffSharpsWanted(subs, free);
    forall q: Path, id: string | WildFree(q) && q != []
      ensures Has(Lookup(Run(EmptyTree(), ops), Some(q)), id) <==> exists s :: Routed(subs, s, q) && s.id == id
    {
      NoSharpAlone(q);
      RunAnswers(ops, q);
    }
    if AnswersTrue(subs) {
      forall q: Path, id: string | WildFree(q) && q != [] && Has(Lookup(Run(EmptyTree(), ops), Some(q)), id)
        ensures Wants(subs, id, q)
      {
        var s :| Routed(subs, s, q) && s.id == id;
      }
    }
    if LooksUpTrue(ops) {
      forall s, q | WildFree(q) && Routed(subs, s, q)
        ensures Wants(subs, s.id, q)
      {
        if q == [] {
          EmptyIsWanted(subs, s);
        }
      }
    }
  }

  /** Only the empty key is routed the empty list of parts. */
  lemma EmptyIsWanted(subs: Registry, s: Sub)
    requires Routed(subs, s, [])
    ensures Wants(subs, s.id, [])
  {
    assert IsWanted(subs, s, s.id, []);
  }

  /** No peer that wants the message is missed. */
  lemma WantedAreReturned(ops: seq<Op>, q: Path, id: string)
    requires AllowedRun(EmptyTree(), ops) && WildFree(q) && q != [] && Wants(Registered(map[], ops), id, q)
    ensures Has(Lookup(Run(EmptyTree(), ops), Some(q)), id)
  {
    hide Routed, TrulyMatches, WildFree, Lookup, Run, AllowedRun, Registered, WildsLast;
    NoSharpAlone(q);
    RunAnswers(ops, q);
    var s :| IsWanted(Registered(map[], ops), s, id, q);
    TrueMatchesAreRouted(Registered(map[], ops), s, q);
  }

  // ----- the peers and their subscriptions -----

  /** Where every routed subscription truly matches, every peer that is returned wants the message. */
  lemma AloneIsTrue(subs: Registry)
    requires SharpsAlone(Live(subs))
    ensures AnswersTrue(subs)
  {
    hide Routed, TrulyMatches;
    TrulyIffSharpsAlone(subs, true);
    forall s, q | WildFree(q) && Routed(subs, s, q)
      ensures Wants(subs, s.id, q)
    {
      RoutedIsThere(subs, s, q);
      assert IsWanted(subs, s, s.id, q);
    }
  }

  lemma RoutedIsThere(subs: Registry, s: Sub, q: Path)
    requires Routed(subs, s, q)
    ensures s in subs
  {
  }

  function OnePeer(): Registry {
    map[Sub(["x", "#"], "p") := Peer("p", "", true, true), Sub(["x", "y"], "p") := Peer("p", "", true, true)]
  }

  /** The converse fails: a peer with both `x.#` and `x.y` wants all it gets, though not by the subscription `x.y`. */
  lemma TrueThoughNotAlone()
    ensures AnswersTrue(OnePeer()) && !SharpsAlone(Live(OnePeer()))
  {
    var subs, k, w := OnePeer(), ["x", "#"], ["x", "y"];
    assert Sub(k, "p") in subs && Sub(w, "p") in subs;
    assert k in Live(subs) && w in Live(subs) && IsFirstSharp(k, 1) && k[..1] <= w;
    var free := FreeFragment(subs);
    forall s, k', j, n | IsBelowSharp(subs, s, k', j) && j < n
      ensures Wants(subs, s.id, Probe(k', j, n, free))
    {
      var q := Probe(k', j, n, free);
      assert k' == k && j == 1;
      assert q[0] == "x" && k[1..] == ["#"] && q[1..] != [];
      assert TrulyMatches(k, q);
      assert IsWanted(subs, Sub(k, "p"), "p", q);
    }
    TrueIffSharpsWanted(subs, free);
  }

  // ----- there is always such a fragment -----

  lemma {:induction false} LongerThanParts(k: Path) returns (n: nat)
    ensures forall f <- k :: |f| < n
    decreases |k|
  {
    if k == [] {
      n := 0;
    } else {
      n := LongerThanParts(k[1..]);
      n := if |k[0]| < n then n else |k[0]| + 1;
      assert forall f <- k :: f == k[0] || f in k[1..];
    }
  }

  lemma {:induction false} LongerThanAll(subs: Registry) returns (n: nat)
    ensures forall s <- subs, f <- s.key :: |f| < n
    decreases |subs|
  {
    if subs == map[] {
      n := 0;
    } else {
      var s :| s in subs;
      var rest := subs - {s};
      assert |rest| < |subs| by { assert rest.Keys == subs.Keys - {s}; }
      n := LongerThanAll(rest);
      var own := LongerThanParts(s.key);
      n := if own < n then n else own;
      assert forall w <- subs :: w == s || w in rest;
    }
  }

  lemma FreeFragment(subs: Registry) returns (free: string)
    ensures IsFree(subs, free)
  {
    var n := LongerThanAll(subs);
    free := seq(n + 2, _ => 'a');
  }
}

/** Matching a local configuration against the resources each environment reports, by name
    (the comprehensions in `convert_source` and `convert_connections`). */
module Resolver {
  import opened Outcomes
  import opened JsonValues

  /** The two environments, in the order `airbyte_helpers.keys()` lists them. */
  datatype Env = Dev | Prod

  /** A value for each environment: a dictionary keyed by `"dev"` and `"prod"`. */
  datatype PerEnv<T> = PerEnv(dev: T, prod: T)
  {
    function At(e: Env): T
    {
      if e == Dev then dev else prod
    }
  }

  /** `[rec for rec in listing if rec["name"] == content["resource_name"]]`. Each record's
      name is read before the wanted name, and an empty listing reads neither. */
  function MatchByName(listing: seq<Json>, content: Json): (r: Result<seq<Json>>)
    ensures r.Ok? <==> (forall k :: 0 <= k < |listing| ==> Get(listing[k], "name").Ok?)
                       && (listing == [] || Get(content, "resource_name").Ok?)
    ensures r.Ok? ==> forall x :: multiset(r.value)[x]
                        == if Get(x, "name") == Get(content, "resource_name") then multiset(listing)[x] else 0
    decreases |listing|
  {
    if listing == [] then Ok([])
    else
      var name :- Get(listing[0], "name");
      var wanted :- Get(content, "resource_name");
      var rest :- MatchByName(listing[1..], content);
      assert forall k :: 1 <= k < |listing| ==> listing[k] == listing[1..][k - 1];
      MatchCons(listing, rest, content, name == wanted);
      Ok(if name == wanted then [listing[0]] + rest else rest)
  }

  /** The first record is kept exactly when its name is the wanted one. */
  lemma MatchCons(listing: seq<Json>, rest: seq<Json>, content: Json, keep: bool)
    requires |listing| > 0 && (keep <==> Get(listing[0], "name") == Get(content, "resource_name"))
    requires forall x :: multiset(rest)[x]
               == if Get(x, "name") == Get(content, "resource_name") then multiset(listing[1..])[x] else 0
    ensures var r := if keep then [listing[0]] + rest else rest;
            forall x :: multiset(r)[x] == if Get(x, "name") == Get(content, "resource_name") then multiset(listing)[x] else 0
  {
    assert listing == [listing[0]] + listing[1..];
    assert multiset(listing) == multiset([listing[0]]) + multiset(listing[1..]);
  }

  /** Both environments are matched, dev first; if either has more than one match the run
      stops with "Too much ... found". */
  function MatchAll(listings: PerEnv<seq<Json>>, content: Json, what: string): (r: Result<PerEnv<seq<Json>>>)
    ensures r.Ok? ==> MatchByName(listings.dev, content) == Ok(r.value.dev)
                      && MatchByName(listings.prod, content) == Ok(r.value.prod)
    ensures r.Ok? ==> |r.value.dev| <= 1 && |r.value.prod| <= 1
    ensures MatchByName(listings.dev, content).Ok? && MatchByName(listings.prod, content).Ok?
            && (|MatchByName(listings.dev, content).value| > 1 || |MatchByName(listings.prod, content).value| > 1)
            ==> r == Err(Ambiguous(what))
  {
    var dev :- MatchByName(listings.dev, content);
    var prod :- MatchByName(listings.prod, content);
    if |dev| > 1 || |prod| > 1 then Err(Ambiguous(what)) else Ok(PerEnv(dev, prod))
  }

  /** Whether record `rec` carries the wanted name. */
  predicate Named(rec: Json, content: Json)
  {
    Get(rec, "name") == Get(content, "resource_name")
  }

  /** Two different positions of a list hold at least two elements of its multiset. */
  lemma TwoPositions(listing: seq<Json>, i: nat, j: nat)
    requires i < j < |listing|
    ensures listing[i] == listing[j] ==> multiset(listing)[listing[i]] >= 2
    ensures listing[i] != listing[j] ==> listing[i] in multiset(listing) && listing[j] in multiset(listing)
  {
    var a, b, c := listing[..j], [listing[j]], listing[j + 1..];
    assert listing == a + b + c;
    assert listing[i] == a[i];
    assert multiset(listing) == multiset(a) + multiset(b) + multiset(c);
  }

  /** A multiset with two copies of `x`, or with two different elements, is not the multiset
      of a list of length at most one. */
  lemma AtMostOneElement(s: seq<Json>, x: Json, y: Json)
    requires |s| <= 1
    ensures multiset(s)[x] <= 1
    ensures x != y && x in multiset(s) && y in multiset(s) ==> false
  {
    if |s| == 1 {
      assert multiset(s) == multiset{s[0]};
    }
  }

  /** A list of length at most one that holds `x` is `[x]`. */
  lemma SingletonOf(m: seq<Json>, x: Json)
    requires |m| <= 1 && x in multiset(m)
    ensures m == [x]
  {
    if m != [] {
      assert multiset(m) == multiset{m[0]};
    }
  }

  /** Every record with the wanted name is the single match. */
  lemma MatchHolds(listing: seq<Json>, content: Json, k: nat)
    requires MatchByName(listing, content).Ok? && |MatchByName(listing, content).value| <= 1
    requires k < |listing| && Named(listing[k], content)
    ensures MatchByName(listing, content).value == [listing[k]]
  {
    var m := MatchByName(listing, content).value;
    var x := listing[k];
    assert x in multiset(listing);
    assert Get(x, "name") == Get(content, "resource_name");
    assert multiset(m)[x] == multiset(listing)[x];
    SingletonOf(m, x);
  }

  /** No two positions of the listing both have the wanted name. */
  lemma MatchOnce(listing: seq<Json>, content: Json, i: nat, j: nat)
    requires MatchByName(listing, content).Ok? && |MatchByName(listing, content).value| <= 1
    requires i < j < |listing| && Named(listing[i], content)
    ensures !Named(listing[j], content)
  {
    var m := MatchByName(listing, content).value;
    TwoPositions(listing, i, j);
    if Named(listing[j], content) {
      assert multiset(m)[listing[i]] == multiset(listing)[listing[i]];
      assert multiset(m)[listing[j]] == multiset(listing)[listing[j]];
      AtMostOneElement(m, listing[i], listing[j]);
    }
  }

  /** An accepted match list for one environment is exact: without a match no record has the
      wanted name, and with a match exactly one position of the listing has it, holding the
      matched record. */
  lemma MatchUnique(listing: seq<Json>, content: Json)
    requires MatchByName(listing, content).Ok? && |MatchByName(listing, content).value| <= 1
    ensures var m := MatchByName(listing, content).value;
            (m == [] ==> forall k :: 0 <= k < |listing| ==> !Named(listing[k], content))
            && (forall k :: 0 <= k < |listing| && Named(listing[k], content) ==> m == [listing[k]])
            && (forall i, j :: 0 <= i < j < |listing| && Named(listing[i], content) ==> !Named(listing[j], content))
  {
    forall k | 0 <= k < |listing| && Named(listing[k], content)
      ensures MatchByName(listing, content).value == [listing[k]]
    {
      MatchHolds(listing, content, k);
    }
    forall i, j | 0 <= i < j < |listing| && Named(listing[i], content) ensures !Named(listing[j], content) {
      MatchOnce(listing, content, i, j);
    }
  }

  /** `found[0]`: the first match, or IndexError when nothing matched. */
  function First(found: seq<Json>): (r: Result<Json>)
    ensures r.Ok? <==> found != []
    ensures r.Ok? ==> r.value in found
    ensures r.Err? ==> r.error == IndexError
  {
    if found == [] then Err(IndexError) else Ok(found[0])
  }
}

/** The Terraform variables `create_vars_for_secrets` declares for the secrets of the data
    product's repository: one per secret name once its environment prefix is dropped, except
    for the four the generated configuration reads from the Google secret manager. */
module Secrets {
  import opened Text

  /** The secrets already provided through the Google secret manager (generate_tf.py:131-132). */
  const Handled: seq<string> := ["INGESTION_ACCOUNT_HMAC_KEY_ID", "INGESTION_ACCOUNT_HMAC_KEY_SECRET",
    "INGESTION_ACCOUNT_SECRET_JSON", "AIRBYTE_URL"]

  /** `name.replace("DEV_", "").replace("PROD_", "")`. */
  function Unprefixed(name: string): string
  {
    Replace(Replace(name, "DEV_", ""), "PROD_", "")
  }

  /** A leading `DEV_` disappears. */
  lemma DevPrefixDropped(x: string)
    ensures Unprefixed("DEV_" + x) == Unprefixed(x)
  {
    ReplaceFront("DEV_", x, "");
    assert "" + Replace(x, "DEV_", "") == Replace(x, "DEV_", "");
  }

  /** A leading `PROD_` survives the first replacement and disappears in the second. */
  lemma ProdPrefixDropped(x: string)
    ensures Unprefixed("PROD_" + x) == Unprefixed(x)
  {
    var s := "PROD_" + x;
    forall j | 0 <= j < 5 ensures !OccursAt(s, "DEV_", j) {
      if j == 3 {
        NotAtBy(s, "DEV_", j, 1);
      } else {
        NotAtBy(s, "DEV_", j, 0);
      }
    }
    ReplaceSkip(s, 5, "DEV_", "");
    assert s[..5] == "PROD_" && s[5..] == x;
    var y := Replace(x, "DEV_", "");
    ReplaceFront("PROD_", y, "");
    assert "" + Replace(y, "PROD_", "") == Replace(y, "PROD_", "");
  }

  /** `DEV_X` and `PROD_X` declare the same variable as `X`. */
  lemma EnvironmentsShareVariable(x: string)
    ensures Unprefixed("DEV_" + x) == Unprefixed("PROD_" + x) == Unprefixed(x)
  {
    DevPrefixDropped(x);
    ProdPrefixDropped(x);
  }

  /** `set([... for secret in secrets["secrets"]])`. */
  function UniqueSecrets(names: seq<string>): set<string>
  {
    set i | 0 <= i < |names| :: Unprefixed(names[i])
  }

  /** A listing of a set: every element exactly once, in the order `for` visits them. */
  predicate IsListing(order: seq<string>, elements: set<string>)
  {
    && (forall i :: 0 <= i < |order| ==> order[i] in elements)
    && (forall x :: x in elements ==> x in order)
    && Distinct(order)
  }

  /** The secrets that get a variable, in visiting order. */
  function Declared(order: seq<string>): (r: seq<string>)
    ensures forall x :: x in r <==> x in order && x !in Handled
    decreases |order|
  {
    if order == [] then []
    else
      var init := Declared(order[..|order| - 1]);
      var last := order[|order| - 1];
      assert forall x :: x in order <==> x in order[..|order| - 1] || x == last;
      if last in Handled then init else init + [last]
  }

  /** The variable declaration written for one secret. */
  function VariableBlock(secret: string): string
  {
    "\nvariable \"" + secret + "\" {\n  description = \"Variable for " + secret + ".\"\n  sensitive   = true\n}\n        "
  }

  /** What the loop appends: one declaration per declared secret, each followed by the line
      break `add_to_output` adds. */
  function VariableBlocks(secrets: seq<string>): string
    decreases |secrets|
  {
    if secrets == [] then ""
    else VariableBlocks(secrets[..|secrets| - 1]) + VariableBlock(secrets[|secrets| - 1]) + "\n"
  }

  /** No element occurs twice. */
  predicate Distinct(s: seq<string>)
  {
    forall i, j :: 0 <= i < j < |s| ==> s[i] != s[j]
  }

  /** Declaring keeps the visiting order's lack of repeats. */
  lemma {:induction false} DeclaredDistinct(order: seq<string>)
    requires Distinct(order)
    ensures Distinct(Declared(order))
    decreases |order|
  {
    if order != [] {
      var init := order[..|order| - 1];
      var last := order[|order| - 1];
      assert forall i, j :: 0 <= i < j < |init| ==> init[i] == order[i] && init[j] == order[j];
      DeclaredDistinct(init);
      assert last !in init by {
        forall i | 0 <= i < |init| ensures init[i] != last {
          assert init[i] == order[i];
        }
      }
      var d := Declared(init);
      assert last !in d;
      if last !in Handled {
        var r := d + [last];
        forall i, j | 0 <= i < j < |r| ensures r[i] != r[j] {
          if j == |d| {
            assert r[i] == d[i] && r[j] == last;
            assert d[i] in d;
          } else {
            assert r[i] == d[i] && r[j] == d[j];
          }
        }
      }
    }
  }

  /** Every secret of the repository, once unprefixed, is declared exactly once unless it is
      one of the four handled ones, and nothing else is declared. */
  lemma DeclaredExactly(names: seq<string>, order: seq<string>)
    requires IsListing(order, UniqueSecrets(names))
    ensures forall x :: x in Declared(order) <==> x in UniqueSecrets(names) && x !in Handled
    ensures Distinct(Declared(order))
    ensures forall i :: 0 <= i < |names| && Unprefixed(names[i]) !in Handled ==> Unprefixed(names[i]) in Declared(order)
  {
    DeclaredDistinct(order);
    forall i | 0 <= i < |names| && Unprefixed(names[i]) !in Handled ensures Unprefixed(names[i]) in Declared(order) {
      assert Unprefixed(names[i]) in UniqueSecrets(names);
    }
  }

  /** The declarations written for the names visited in `order`. */
  function DeclaredText(order: seq<string>): string
  {
    VariableBlocks(Declared(order))
  }

  /** What visiting one name appends: its declaration and a line break, or nothing when the
      name is handled elsewhere. */
  function Declaration(secret: string): string
  {
    if secret in Handled then "" else VariableBlock(secret) + "\n"
  }

  /** Visiting one more name declares it, unless it is handled elsewhere. */
  lemma DeclaredSnoc(order: seq<string>, secret: string)
    ensures Declared(order + [secret]) == if secret in Handled then Declared(order) else Declared(order) + [secret]
  {
    assert (order + [secret])[..|order|] == order;
  }

  /** One more declared name appends its declaration and a line break. */
  lemma BlocksSnoc(declared: seq<string>, secret: string)
    ensures VariableBlocks(declared + [secret]) == VariableBlocks(declared) + (VariableBlock(secret) + "\n")
  {
    assert (declared + [secret])[..|declared|] == declared;
  }

  /** The declarations of the first `i + 1` visited names are those of the first `i` followed
      by the next one's. */
  lemma DeclaredNext(order: seq<string>, i: nat, done: string)
    requires i < |order| && done == DeclaredText(order[..i])
    ensures DeclaredText(order[..i + 1]) == done + Declaration(order[i])
  {
    var pre := order[..i];
    assert order[..i + 1] == pre + [order[i]];
    DeclaredSnoc(pre, order[i]);
    if order[i] in Handled {
      assert done + "" == done;
    } else {
      BlocksSnoc(Declared(pre), order[i]);
    }
  }
}

/** The loosely typed values the synthesis code handles: YAML-loaded configuration files,
    listings returned by the orchestration service, and the dictionaries it builds itself.
    A Python dictionary keeps its insertion order, which `json.dumps` follows, so an object
    is an ordered list of (key, value) entries, whose keys are taken to be unique, as a
    dictionary's are. */
module JsonValues {
  import opened Outcomes

  datatype Json =
    | JNull
    | JBool(b: bool)
    | JInt(i: int)
    | JStr(s: string)
    | JArr(items: seq<Json>)
    | JObj(fields: seq<(string, Json)>)

  type Fields = seq<(string, Json)>

  /** The keys of a dictionary, in insertion order. */
  function Keys(fields: Fields): (ks: seq<string>)
    ensures |ks| == |fields|
    ensures forall i :: 0 <= i < |fields| ==> ks[i] == fields[i].0
  {
    if |fields| == 0 then [] else [fields[0].0] + Keys(fields[1..])
  }

  /** The value stored under `k` (the first entry with that key). */
  function Find(fields: Fields, k: string): (r: Option<Json>)
    ensures r.None? <==> k !in Keys(fields)
  {
    if |fields| == 0 then None
    else if fields[0].0 == k then Some(fields[0].1)
    else Find(fields[1..], k)
  }

  /** `d[k] = v`: an existing key keeps its place and takes the new value; a new key is appended. */
  function Put(fields: Fields, k: string, v: Json): (r: Fields)
    ensures Find(r, k) == Some(v)
    ensures forall k' :: k' != k ==> Find(r, k') == Find(fields, k')
    ensures k in Keys(fields) ==> Keys(r) == Keys(fields)
    ensures k !in Keys(fields) ==> Keys(r) == Keys(fields) + [k]
  {
    if |fields| == 0 then [(k, v)]
    else if fields[0].0 == k then PutFront(fields, k, v); [(k, v)] + fields[1..]
    else
      var rest := Put(fields[1..], k, v);
      PutBehind(fields, rest, k, v);
      [fields[0]] + rest
  }

  /** Overwriting the first entry. */
  lemma PutFront(fields: Fields, k: string, v: Json)
    requires |fields| > 0 && fields[0].0 == k
    ensures var r := [(k, v)] + fields[1..];
            && Find(r, k) == Some(v)
            && (forall k' :: k' != k ==> Find(r, k') == Find(fields, k'))
            && Keys(r) == Keys(fields)
  {
    var r := [(k, v)] + fields[1..];
    assert r[1..] == fields[1..];
  }

  /** Putting behind an entry with another key keeps that entry in front. */
  lemma PutBehind(fields: Fields, rest: Fields, k: string, v: Json)
    requires |fields| > 0 && fields[0].0 != k
    requires Find(rest, k) == Some(v)
    requires forall k' :: k' != k ==> Find(rest, k') == Find(fields[1..], k')
    requires k in Keys(fields[1..]) ==> Keys(rest) == Keys(fields[1..])
    requires k !in Keys(fields[1..]) ==> Keys(rest) == Keys(fields[1..]) + [k]
    ensures var r := [fields[0]] + rest;
            && Find(r, k) == Some(v)
            && (forall k' :: k' != k ==> Find(r, k') == Find(fields, k'))
            && (k in Keys(fields) ==> Keys(r) == Keys(fields))
            && (k !in Keys(fields) ==> Keys(r) == Keys(fields) + [k])
  {
    FindBehind(fields, rest, k, v);
    KeysBehind(fields[0], fields[1..], rest, k);
    assert [fields[0]] + fields[1..] == fields;
  }

  lemma FindBehind(fields: Fields, rest: Fields, k: string, v: Json)
    requires |fields| > 0 && fields[0].0 != k
    requires Find(rest, k) == Some(v)
    requires forall k' :: k' != k ==> Find(rest, k') == Find(fields[1..], k')
    ensures var r := [fields[0]] + rest;
            && Find(r, k) == Some(v)
            && (forall k' :: k' != k ==> Find(r, k') == Find(fields, k'))
  {
    var r := [fields[0]] + rest;
    assert r[1..] == rest;
  }

  lemma KeysBehind(f: (string, Json), tail: Fields, rest: Fields, k: string)
    requires f.0 != k
    requires k in Keys(tail) ==> Keys(rest) == Keys(tail)
    requires k !in Keys(tail) ==> Keys(rest) == Keys(tail) + [k]
    ensures k in Keys([f] + tail) ==> Keys([f] + rest) == Keys([f] + tail)
    ensures k !in Keys([f] + tail) ==> Keys([f] + rest) == Keys([f] + tail) + [k]
  {
    KeysCons(f, rest);
    KeysCons(f, tail);
    if k !in Keys(tail) {
      assert [f.0] + (Keys(tail) + [k]) == [f.0] + Keys(tail) + [k];
    }
  }

  lemma KeysCons(f: (string, Json), tail: Fields)
    ensures Keys([f] + tail) == [f.0] + Keys(tail)
  {
    assert ([f] + tail)[1..] == tail;
  }

  /** The keys of `ks` outside `drop`, in their order. */
  function Omit(ks: seq<string>, drop: set<string>): seq<string>
    decreases |ks|
  {
    if ks == [] then [] else (if ks[0] in drop then [] else [ks[0]]) + Omit(ks[1..], drop)
  }

  /** A key survives exactly when it was there and is not dropped. */
  lemma {:induction false} OmitIn(ks: seq<string>, drop: set<string>, x: string)
    ensures x in Omit(ks, drop) <==> x in ks && x !in drop
    decreases |ks|
  {
    if ks != [] {
      OmitIn(ks[1..], drop, x);
      assert x in ks <==> x == ks[0] || x in ks[1..];
    }
  }

  lemma {:induction false} OmitAppend(a: seq<string>, b: seq<string>, drop: set<string>)
    ensures Omit(a + b, drop) == Omit(a, drop) + Omit(b, drop)
    decreases |a|
  {
    if a == [] {
      assert a + b == b;
    } else {
      var head := if a[0] in drop then [] else [a[0]];
      assert (a + b)[0] == a[0] && (a + b)[1..] == a[1..] + b;
      assert Omit(a + b, drop) == head + Omit(a[1..] + b, drop);
      OmitAppend(a[1..], b, drop);
      assert Omit(a, drop) == head + Omit(a[1..], drop);
    }
  }

  lemma {:induction false} OmitTwice(ks: seq<string>, d1: set<string>, d2: set<string>)
    ensures Omit(Omit(ks, d1), d2) == Omit(ks, d1 + d2)
    decreases |ks|
  {
    if ks != [] {
      OmitTwice(ks[1..], d1, d2);
      var head := if ks[0] in d1 then [] else [ks[0]];
      OmitAppend(head, Omit(ks[1..], d1), d2);
      if ks[0] !in d1 {
        assert [ks[0]][1..] == [];
      }
    }
  }

  /** Keys none of which is dropped are kept as they are. */
  lemma {:induction false} OmitNone(ks: seq<string>, drop: set<string>)
    requires forall x :: x in ks ==> x !in drop
    ensures Omit(ks, drop) == ks
    decreases |ks|
  {
    if ks != [] {
      assert ks[0] in ks;
      assert forall x :: x in ks[1..] ==> x in ks;
      OmitNone(ks[1..], drop);
      assert [ks[0]] + ks[1..] == ks;
    }
  }

  /** `del d[k]` on a dictionary that holds `k`: the entry goes and the others keep their order. */
  function Remove(fields: Fields, k: string): (r: Fields)
    ensures Find(r, k) == None
    ensures forall k' :: k' != k ==> Find(r, k') == Find(fields, k')
    ensures Keys(r) == Omit(Keys(fields), {k})
    decreases |fields|
  {
    if |fields| == 0 then []
    else if fields[0].0 == k then Remove(fields[1..], k)
    else
      var rest := Remove(fields[1..], k);
      KeysCons(fields[0], rest);
      KeysCons(fields[0], fields[1..]);
      assert [fields[0]] + fields[1..] == fields;
      [fields[0]] + rest
  }

  /** `j[k]` for a string key: a dictionary without `k` raises KeyError, anything else TypeError. */
  function Get(j: Json, k: string): (r: Result<Json>)
    ensures r.Ok? <==> j.JObj? && k in Keys(j.fields)
    ensures r.Ok? ==> Find(j.fields, k) == Some(r.value)
    ensures j.JObj? && k !in Keys(j.fields) ==> r == Err(KeyError(k))
    ensures !j.JObj? ==> r == Err(TypeError)
  {
    match j
    case JObj(fields) =>
      var v := Find(fields, k);
      if v.Some? then Ok(v.value) else Err(KeyError(k))
    case _ => Err(TypeError)
  }

  /** `del j[k]`. */
  function Del(j: Json, k: string): (r: Result<Json>)
    ensures r.Ok? <==> j.JObj? && k in Keys(j.fields)
    ensures r.Ok? ==> r.value.JObj? && Find(r.value.fields, k) == None
    ensures r.Ok? ==> forall k' :: k' != k ==> Find(r.value.fields, k') == Find(j.fields, k')
    ensures r.Ok? ==> Keys(r.value.fields) == Omit(Keys(j.fields), {k})
    ensures j.JObj? && k !in Keys(j.fields) ==> r == Err(KeyError(k))
    ensures !j.JObj? ==> r == Err(TypeError)
  {
    match j
    case JObj(fields) => if k in Keys(fields) then Ok(JObj(Remove(fields, k))) else Err(KeyError(k))
    case _ => Err(TypeError)
  }

  /** `j[k] = v`. */
  function Set(j: Json, k: string, v: Json): (r: Result<Json>)
    ensures r.Ok? <==> j.JObj?
    ensures r.Ok? ==> r.value.JObj? && Find(r.value.fields, k) == Some(v)
    ensures r.Ok? ==> forall k' :: k' != k ==> Find(r.value.fields, k') == Find(j.fields, k')
  {
    match j
    case JObj(fields) => Ok(JObj(Put(fields, k, v)))
    case _ => Err(TypeError)
  }

  /** The values `for x in j` visits: list items, dictionary keys, or the characters of a string;
      iterating None, a boolean or a number raises TypeError. */
  function Iterate(j: Json): (r: Result<seq<Json>>)
    ensures r.Ok? <==> j.JArr? || j.JObj? || j.JStr?
    ensures j.JArr? ==> r == Ok(j.items)
    ensures j.JObj? ==> r.Ok? && |r.value| == |j.fields|
    ensures j.JStr? ==> r.Ok? && |r.value| == |j.s|
  {
    match j
    case JArr(items) => Ok(items)
    case JObj(fields) => Ok(seq(|fields|, i requires 0 <= i < |fields| => JStr(fields[i].0)))
    case JStr(s) => Ok(seq(|s|, i requires 0 <= i < |s| => JStr([s[i]])))
    case _ => Err(TypeError)
  }

  /** Decimal digits of a natural number, most significant first. */
  function NatToString(n: nat): (r: string)
    ensures |r| >= 1
    ensures forall i :: 0 <= i < |r| ==> '0' <= r[i] <= '9'
    decreases n
  {
    if n < 10 then [DigitChar(n)] else NatToString(n / 10) + [DigitChar(n % 10)]
  }

  function DigitChar(d: nat): (c: char)
    requires d < 10
    ensures '0' <= c <= '9'
  {
    "0123456789"[d]
  }

  /** Python's `str(i)` for an integer. */
  function IntToString(i: int): string
  {
    if i < 0 then "-" + NatToString(-i) else NatToString(i)
  }

  /** What an f-string writes for a scalar value (`str(v)`). */
  function PyStr(j: Json): (r: Result<string>)
    ensures r.Ok? <==> !j.JArr? && !j.JObj?
    ensures j.JStr? ==> r == Ok(j.s)
  {
    match j
    case JNull => Ok("None")
    case JBool(b) => Ok(if b then "True" else "False")
    case JInt(i) => Ok(IntToString(i))
    case JStr(s) => Ok(s)
    case _ => Err(NotModelled)
  }

  /** The first entry under a key is what `Find` returns for it. */
  lemma {:induction false} FindAt(fields: Fields, i: nat, k: string)
    requires i < |fields| && fields[i].0 == k && forall j :: 0 <= j < i ==> fields[j].0 != k
    ensures Find(fields, k) == Some(fields[i].1)
  {
    if i > 0 {
      var rest := fields[1..];
      assert fields[0].0 != k;
      assert rest[i - 1] == fields[i];
      forall j | 0 <= j < i - 1 ensures rest[j].0 != k {
        assert rest[j] == fields[j + 1];
      }
      FindAt(rest, i - 1, k);
    }
  }
}

/** The values and texts the conversion builds from one local configuration: the rewritten
    source configuration and its resource type, the curated connection dictionary with its
    schedule and streams, and the `import` block that binds a resource to the remote id of
    whichever environment Terraform runs in. */
module Blocks {
  import opened Outcomes
  import opened Text
  import opened JsonValues
  import opened Resolver
  import Scanner

  // ---- paths and names ----

  /** `file_path.split("/")`. */
  function PathSegments(filePath: string): (parts: seq<string>)
    ensures |parts| >= 1
  {
    Split(filePath, "/")
  }

  /** `file_path.split("/")[3]`: the directory named after the resource, or IndexError on a
      path with fewer than four segments. */
  function PathName(filePath: string): (r: Result<string>)
    ensures r.Ok? <==> |PathSegments(filePath)| > 3
    ensures r.Err? ==> r.error == IndexError
    ensures r.Ok? ==> '/' !in r.value && Contains(filePath, "/")
  {
    var parts := PathSegments(filePath);
    if |parts| <= 3 then Err(IndexError)
    else
      SplitPiecesFree(filePath, "/");
      ContainsChar(parts[3], '/');
      SplitCount(filePath, "/");
      Ok(parts[3])
  }

  /** `name.replace(' ', '_')`. */
  function Underscored(name: string): (r: string)
    ensures |r| == |name| && ' ' !in r
    ensures forall i :: 0 <= i < |name| ==> r[i] == if name[i] == ' ' then '_' else name[i]
  {
    ReplaceChar(name, ' ', '_');
    Replace(name, " ", "_")
  }

  /** The resource type derived from a connector image: `definition_image.replace("/", "_")
      .replace("-", "_")`; a value that is not a string has no `replace` (AttributeError). */
  function PackageName(image: Json): (r: Result<string>)
    ensures r.Ok? <==> image.JStr?
    ensures r.Err? ==> r.error == AttributeError
    ensures r.Ok? ==> |r.value| == |image.s| && '/' !in r.value && '-' !in r.value
    ensures r.Ok? ==> forall i :: 0 <= i < |image.s| ==>
                        r.value[i] == if image.s[i] == '/' || image.s[i] == '-' then '_' else image.s[i]
  {
    if !image.JStr? then Err(AttributeError)
    else
      var s := image.s;
      ReplaceChar(s, '/', '_');
      var t := Replace(s, "/", "_");
      ReplaceChar(t, '-', '_');
      Ok(Replace(t, "-", "_"))
  }

  /** The Terraform address of a source, `f"{tf_package}.{source_tf_name}"`: the resource
      type, a dot, and the source name with its spaces made underscores. */
  function SourceAddress(tfPackage: string, sourceName: string): (r: string)
    ensures |r| == |tfPackage| + 1 + |sourceName|
    ensures r[..|tfPackage|] == tfPackage && r[|tfPackage|] == '.' && ' ' !in r[|tfPackage| + 1..]
    ensures forall i :: 0 <= i < |sourceName| ==>
              r[|tfPackage| + 1 + i] == if sourceName[i] == ' ' then '_' else sourceName[i]
  {
    var u := Underscored(sourceName);
    assert (tfPackage + "." + u)[|tfPackage| + 1..] == u;
    tfPackage + "." + u
  }

  /** A resource type without a dot and the underscored name can be read back from the
      address: it splits at its first dot. */
  lemma AddressSplits(p1: string, n1: string, p2: string, n2: string)
    requires '.' !in p1 && '.' !in p2
    ensures SourceAddress(p1, n1) == SourceAddress(p2, n2) <==> p1 == p2 && Underscored(n1) == Underscored(n2)
  {
    var r1, r2 := SourceAddress(p1, n1), SourceAddress(p2, n2);
    var u1, u2 := Underscored(n1), Underscored(n2);
    assert r1 == p1 + "." + u1 by {
      assert |r1| == |p1 + "." + u1|;
      forall i | 0 <= i < |r1| ensures r1[i] == (p1 + "." + u1)[i] {
        if i < |p1| {
          assert r1[i] == r1[..|p1|][i];
        }
      }
    }
    assert r2 == p2 + "." + u2 by {
      assert |r2| == |p2 + "." + u2|;
      forall i | 0 <= i < |r2| ensures r2[i] == (p2 + "." + u2)[i] {
        if i < |p2| {
          assert r2[i] == r2[..|p2|][i];
        }
      }
    }
    if r1 == r2 {
      assert forall i :: 0 <= i < |p1| ==> r1[i] == p1[i] && p1[i] in p1;
      assert forall i :: 0 <= i < |p2| ==> r2[i] == p2[i] && p2[i] in p2;
      assert |p1| == |p2|;
      assert p1 == r1[..|p1|] == p2;
      assert u1 == r1[|p1| + 1..] == u2;
    }
  }

  // ---- the source configuration ----

  const WorkspaceRef: string := "${var.WORKSPACE_ID}"

  /** Lines 221-224 of `convert_source`: drop the definition type and version, then copy
      `resource_name` to `name` and drop it. */
  function RenameResource(content: Json): (r: Result<Json>)
    ensures r.Ok? <==> content.JObj? && Find(content.fields, "definition_type").Some?
                       && Find(content.fields, "definition_version").Some? && Find(content.fields, "resource_name").Some?
    ensures r.Ok? ==> r.value.JObj?
    ensures r.Ok? ==> Find(r.value.fields, "definition_type") == None && Find(r.value.fields, "definition_version") == None
    ensures r.Ok? ==> Find(r.value.fields, "resource_name") == None
    ensures r.Ok? ==> Find(r.value.fields, "name") == Find(content.fields, "resource_name")
    ensures r.Ok? ==> forall k :: k != "definition_type" && k != "definition_version" && k != "resource_name" && k != "name"
                                 ==> Find(r.value.fields, k) == Find(content.fields, k)
    ensures r.Ok? ==> Keys(r.value.fields) == Omit(Keys(content.fields), Renamed) + NewKey(Keys(content.fields), "name")
    ensures content.JObj? && Find(content.fields, "definition_type").None? ==> r == Err(KeyError("definition_type"))
    ensures (content.JObj? && Find(content.fields, "definition_type").Some?
             && Find(content.fields, "definition_version").None?) ==> r == Err(KeyError("definition_version"))
    ensures (content.JObj? && Find(content.fields, "definition_type").Some? && Find(content.fields, "definition_version").Some?
             && Find(content.fields, "resource_name").None?) ==> r == Err(KeyError("resource_name"))
    ensures !content.JObj? ==> r == Err(TypeError)
  {
    if !content.JObj? then Err(TypeError)
    else if Find(content.fields, "definition_type").None? then Err(KeyError("definition_type"))
    else if Find(content.fields, "definition_version").None? then Err(KeyError("definition_version"))
    else if Find(content.fields, "resource_name").None? then Err(KeyError("resource_name"))
    else Ok(JObj(RenameFields(content.fields)))
  }

  /** The renaming once each `del` and the lookup of `resource_name` have found their key. */
  function RenameFields(fields: Fields): (r: Fields)
    requires Find(fields, "definition_type").Some? && Find(fields, "definition_version").Some?
    requires Find(fields, "resource_name").Some?
    ensures Find(r, "definition_type") == None && Find(r, "definition_version") == None
    ensures Find(r, "resource_name") == None
    ensures Find(r, "name") == Find(fields, "resource_name")
    ensures forall k :: k != "definition_type" && k != "definition_version" && k != "resource_name" && k != "name"
                        ==> Find(r, k) == Find(fields, k)
    ensures Keys(r) == Omit(Keys(fields), Renamed) + NewKey(Keys(fields), "name")
  {
    var c2 := DropDefinition(fields);
    RenameKeys(Keys(fields), Keys(c2), Keys(Put(c2, "name", Find(c2, "resource_name").value)));
    NameFromResource(c2)
  }

  /** Lines 221-222: drop the definition type, then the definition version. */
  function DropDefinition(fields: Fields): (r: Fields)
    ensures Find(r, "definition_type") == None && Find(r, "definition_version") == None
    ensures forall k :: k != "definition_type" && k != "definition_version" ==> Find(r, k) == Find(fields, k)
    ensures Keys(r) == Omit(Omit(Keys(fields), {"definition_type"}), {"definition_version"})
  {
    Remove(Remove(fields, "definition_type"), "definition_version")
  }

  /** Lines 223-224: copy `resource_name` to `name`, then drop `resource_name`. */
  function NameFromResource(fields: Fields): (r: Fields)
    requires Find(fields, "resource_name").Some?
    ensures Find(r, "resource_name") == None
    ensures Find(r, "name") == Find(fields, "resource_name")
    ensures forall k :: k != "resource_name" && k != "name" ==> Find(r, k) == Find(fields, k)
    ensures Keys(r) == Omit(Keys(Put(fields, "name", Find(fields, "resource_name").value)), {"resource_name"})
  {
    Remove(Put(fields, "name", Find(fields, "resource_name").value), "resource_name")
  }

  /** The keys the renaming drops. */
  const Renamed: set<string> := {"definition_type", "definition_version", "resource_name"}

  /** `[k]` when `d[k] = v` appends `k` to a dictionary with keys `ks`, else nothing. */
  function NewKey(ks: seq<string>, k: string): seq<string>
  {
    if k in ks then [] else [k]
  }

  /** Dropping the two definition keys, writing `name`, then dropping `resource_name` keeps the
      other keys in place and appends `name` if it was new. */
  lemma RenameKeys(ks: seq<string>, k2: seq<string>, k3: seq<string>)
    requires k2 == Omit(Omit(ks, {"definition_type"}), {"definition_version"})
    requires k3 == if "name" in k2 then k2 else k2 + ["name"]
    ensures Omit(k3, {"resource_name"}) == Omit(ks, Renamed) + NewKey(ks, "name")
  {
    var d := {"definition_type"} + {"definition_version"};
    OmitTwice(ks, {"definition_type"}, {"definition_version"});
    OmitTwice(ks, d, {"resource_name"});
    assert d + {"resource_name"} == Renamed;
    OmitIn(ks, d, "name");
    if "name" !in k2 {
      OmitAppend(k2, ["name"], {"resource_name"});
      assert ["name"][1..] == [];
      assert Omit(["name"], {"resource_name"}) == ["name"];
    } else {
      assert Omit(ks, Renamed) + [] == Omit(ks, Renamed);
    }
  }

  /** The keys `convert_source` neither drops nor writes. */
  predicate Kept(k: string)
  {
    && k != "definition_type" && k != "definition_version" && k != "resource_name" && k != "definition_image"
    && k != "name" && k != "workspace_id"
  }

  /** What `convert_source` needs of a source file: a mapping with the four bookkeeping keys,
      whose image is a string. */
  predicate Convertible(content: Json)
  {
    && content.JObj?
    && Find(content.fields, "definition_type").Some?
    && Find(content.fields, "definition_version").Some?
    && Find(content.fields, "resource_name").Some?
    && Find(content.fields, "definition_image").Some?
    && Find(content.fields, "definition_image").value.JStr?
  }

  /** Lines 226-227 of `convert_source`: drop `definition_image` and point `workspace_id` at
      the Terraform variable. */
  function PointAtWorkspace(fields: Fields): (r: Fields)
    ensures Find(r, "definition_image") == None
    ensures Find(r, "workspace_id") == Some(JStr(WorkspaceRef))
    ensures forall k :: k != "definition_image" && k != "workspace_id" ==> Find(r, k) == Find(fields, k)
    ensures Keys(r) == Omit(Keys(fields), {"definition_image"}) + NewKey(Keys(fields), "workspace_id")
  {
    var c := Remove(fields, "definition_image");
    OmitIn(Keys(fields), {"definition_image"}, "workspace_id");
    assert Keys(c) + [] == Keys(c);
    Put(c, "workspace_id", JStr(WorkspaceRef))
  }

  /** The keys `convert_source` drops. */
  const Dropped: set<string> := Renamed + {"definition_image"}

  /** After the renaming, the workspace step drops the image and appends `workspace_id` if it
      was new. */
  lemma SourceKeys(ks: seq<string>, k4: seq<string>)
    requires k4 == Omit(ks, Renamed) + NewKey(ks, "name")
    ensures Omit(k4, {"definition_image"}) + NewKey(k4, "workspace_id")
            == Omit(ks, Dropped) + NewKey(ks, "name") + NewKey(ks, "workspace_id")
  {
    OmitAppend(Omit(ks, Renamed), NewKey(ks, "name"), {"definition_image"});
    OmitTwice(ks, Renamed, {"definition_image"});
    OmitNone(NewKey(ks, "name"), {"definition_image"});
    OmitIn(ks, Renamed, "workspace_id");
    assert "workspace_id" in k4 <==> "workspace_id" in ks;
  }

  /** Lines 221-227 of `convert_source`, in their order: after the renaming, derive the
      resource type from `definition_image`, drop it, and point `workspace_id` at the Terraform
      variable. The result is the rewritten configuration and the resource type. */
  function SourceConfig(content: Json): (r: Result<(Json, string)>)
    ensures r.Ok? <==> Convertible(content)
    ensures r.Ok? ==> ConvertedFrom(content, r.value.0, r.value.1)
  {
    var c4 :- RenameResource(content);
    assert Find(c4.fields, "definition_image") == Find(content.fields, "definition_image");
    var image :- Get(c4, "definition_image");
    var tfPackage :- PackageName(image);
    Ok(Configured(content, c4, tfPackage))
  }

  /** What `convert_source` makes of a source file: a mapping without the four bookkeeping
      keys, whose `name` is the old `resource_name`, whose `workspace_id` is the Terraform
      variable, and whose other entries are unchanged; its keys keep their order, with `name`
      and then `workspace_id` appended when new; and the resource type derived from the image. */
  ghost predicate ConvertedFrom(content: Json, config: Json, tfPackage: string)
    requires content.JObj? && Find(content.fields, "definition_image").Some?
  {
    && config.JObj?
    && Find(config.fields, "definition_type") == None && Find(config.fields, "definition_version") == None
    && Find(config.fields, "resource_name") == None && Find(config.fields, "definition_image") == None
    && Find(config.fields, "name") == Find(content.fields, "resource_name")
    && Find(config.fields, "workspace_id") == Some(JStr(WorkspaceRef))
    && (forall k :: Kept(k) ==> Find(config.fields, k) == Find(content.fields, k))
    && PackageName(Find(content.fields, "definition_image").value) == Ok(tfPackage)
    && Keys(config.fields) == Omit(Keys(content.fields), Dropped) + NewKey(Keys(content.fields), "name")
                              + NewKey(Keys(content.fields), "workspace_id")
  }

  /** The configuration and resource type of a source file that converts. */
  function Configured(content: Json, c4: Json, tfPackage: string): (r: (Json, string))
    requires RenameResource(content) == Ok(c4)
    requires Find(content.fields, "definition_image").Some?
    requires PackageName(Find(content.fields, "definition_image").value) == Ok(tfPackage)
    ensures Convertible(content)
    ensures ConvertedFrom(content, r.0, r.1)
  {
    var c := PointAtWorkspace(c4.fields);
    ConvertedFields(content, c4, c);
    (JObj(c), tfPackage)
  }

  /** The entries and key order the renaming and the workspace step leave together. */
  lemma ConvertedFields(content: Json, c4: Json, c: Fields)
    requires RenameResource(content) == Ok(c4) && c == PointAtWorkspace(c4.fields)
    ensures Find(c, "definition_type") == None && Find(c, "definition_version") == None
    ensures Find(c, "resource_name") == None && Find(c, "definition_image") == None
    ensures Find(c, "name") == Find(content.fields, "resource_name")
    ensures Find(c, "workspace_id") == Some(JStr(WorkspaceRef))
    ensures forall k :: Kept(k) ==> Find(c, k) == Find(content.fields, k)
    ensures Keys(c) == Omit(Keys(content.fields), Dropped) + NewKey(Keys(content.fields), "name")
                       + NewKey(Keys(content.fields), "workspace_id")
  {
    forall k | Kept(k) ensures Find(c, k) == Find(content.fields, k) {
      assert Find(c, k) == Find(c4.fields, k);
    }
    SourceKeys(Keys(content.fields), Keys(c4.fields));
  }

  // ---- the import block ----

  /** `remote_ids[env][0][id_key]` for dev, then for prod, as the f-string writes them. */
  function BindingIds(found: PerEnv<seq<Json>>, idKey: string): (r: Result<(string, string)>)
    ensures r.Ok? ==> found.dev != [] && found.prod != []
    ensures found.dev == [] ==> r == Err(IndexError)
    ensures r.Ok? ==> Get(found.dev[0], idKey).Ok? && PyStr(Get(found.dev[0], idKey).value) == Ok(r.value.0)
    ensures r.Ok? ==> Get(found.prod[0], idKey).Ok? && PyStr(Get(found.prod[0], idKey).value) == Ok(r.value.1)
  {
    var devRecord :- First(found.dev);
    var devValue :- Get(devRecord, idKey);
    var devId :- PyStr(devValue);
    var prodRecord :- First(found.prod);
    var prodValue :- Get(prodRecord, idKey);
    var prodId :- PyStr(prodValue);
    Ok((devId, prodId))
  }

  const ImportHead: string := "\nimport {\n  for_each = toset(var.ENV == \"dev\" ? [{unique_id: \""
  const ImportMid: string := "\"}] : [{unique_id: \""
  const ImportTo: string := "\"}])  # noqa\n  to = "
  const ImportTail: string := "\n  id = each.value.unique_id\n}\n        "

  /** The text `add_import_for_all_envs` appends: Terraform imports `tfPath` from the dev id
      when `var.ENV` is `"dev"` and from the prod id otherwise. */
  function ImportBlock(tfPath: string, devId: string, prodId: string): string
  {
    ImportHead + (devId + (ImportMid + (prodId + (ImportTo + (tfPath + ImportTail)))))
  }

  datatype Binding = Binding(tfPath: string, devId: string, prodId: string)

  /** The text before the first `c`, and the rest from that `c` on. */
  function Cut(s: string, c: char): (string, string)
  {
    var e := Scanner.FirstOf(s, 0, c);
    (s[..e], s[e..])
  }

  /** Reads back a text laid out as `head + x + mid + y + to + z + tail`, where the fields `x`
      and `y` end at the next double quote and `z` at the end of its line. */
  function ParseFields(t: string, head: string, mid: string, to: string, tail: string): Option<Binding>
  {
    if !(head <= t) then None
    else
      var (x, r1) := Cut(t[|head|..], '"');
      if !(mid <= r1) then None
      else
        var (y, r2) := Cut(r1[|mid|..], '"');
        if !(to <= r2) then None
        else
          var (z, r3) := Cut(r2[|to|..], '\n');
          if r3 != tail then None else Some(Binding(z, x, y))
  }

  /** Reads an import block back: the two ids and the address. */
  function ParseImport(t: string): Option<Binding>
  {
    ParseFields(t, ImportHead, ImportMid, ImportTo, ImportTail)
  }

  /** The first `c` from `k` on is at `k + n` when the `n` characters before it are not `c`. */
  lemma FirstOfAt(s: string, k: nat, c: char, n: nat)
    requires k + n < |s| && s[k + n] == c
    requires forall m :: k <= m < k + n ==> s[m] != c
    ensures Scanner.FirstOf(s, k, c) == k + n
  {
    Scanner.FirstOfSkips(s, k, c);
  }

  /** A field free of `c` is cut off at the `c` that follows it. */
  lemma CutAt(x: string, c: char, rest: string)
    requires c !in x && |rest| > 0 && rest[0] == c
    ensures Cut(x + rest, c) == (x, rest)
  {
    var s := x + rest;
    forall m | 0 <= m < |x| ensures s[m] != c {
      assert s[m] == x[m];
    }
    FirstOfAt(s, 0, c, |x|);
    assert s[..|x|] == x && s[|x|..] == rest;
  }

  /** A known prefix comes off, leaving what follows it. */
  lemma StripPrefix(p: string, r: string)
    ensures p <= p + r && (p + r)[|p|..] == r
  {
    assert (p + r)[..|p|] == p;
  }

  lemma {:induction false} ParseFieldsRoundTrip(head: string, x: string, mid: string, y: string, to: string, z: string, tail: string)
    requires |mid| > 0 && mid[0] == '"' && |to| > 0 && to[0] == '"' && |tail| > 0 && tail[0] == '\n'
    requires '"' !in x && '"' !in y && '\n' !in z
    ensures ParseFields(head + (x + (mid + (y + (to + (z + tail))))), head, mid, to, tail) == Some(Binding(z, x, y))
  {
    var r3 := z + tail;
    var r2 := to + r3;
    var r1 := y + r2;
    var r0 := mid + r1;
    var t := head + (x + r0);
    StripPrefix(head, x + r0);
    CutAt(x, '"', r0);
    StripPrefix(mid, r1);
    CutAt(y, '"', r2);
    StripPrefix(to, r3);
    CutAt(z, '\n', tail);
  }

  /** The block is unambiguous: ids without double quotes and an address on one line are read
      back exactly. */
  lemma ImportRoundTrip(tfPath: string, devId: string, prodId: string)
    requires '"' !in devId && '"' !in prodId && '\n' !in tfPath
    ensures ParseImport(ImportBlock(tfPath, devId, prodId)) == Some(Binding(tfPath, devId, prodId))
  {
    ParseFieldsRoundTrip(ImportHead, devId, ImportMid, prodId, ImportTo, tfPath, ImportTail);
  }

  // ---- the connection ----

  const DedupMode: string := "incremental_append_dedup"
  const DedupName: string := "incremental_deduped_history"

  /** The stream's configuration holds both modes, and both are strings. */
  predicate HasModes(stream: Json)
  {
    && Get(stream, "config").Ok?
    && var config := Get(stream, "config").value;
       && Get(config, "sync_mode").Ok? && Get(config, "sync_mode").value.JStr?
       && Get(config, "destination_sync_mode").Ok? && Get(config, "destination_sync_mode").value.JStr?
  }

  /** `get_sync_mode`: the source mode, `_`, the destination mode, with the append-dedup pair
      renamed. Adding a non-string raises TypeError before the destination mode is read. */
  function SyncMode(stream: Json): (r: Result<string>)
    ensures r.Ok? <==> HasModes(stream)
    ensures r.Ok? ==> var config := Get(stream, "config").value;
              r.value == Replace(Get(config, "sync_mode").value.s + "_" + Get(config, "destination_sync_mode").value.s,
                                 DedupMode, DedupName)
    ensures Get(stream, "config").Err? ==> r == Err(Get(stream, "config").error)
    ensures (Get(stream, "config").Ok? && Get(Get(stream, "config").value, "sync_mode").Ok?
             && !Get(Get(stream, "config").value, "sync_mode").value.JStr?) ==> r == Err(TypeError)
  {
    var config :- Get(stream, "config");
    var source :- Get(config, "sync_mode");
    if !source.JStr? then Err(TypeError)
    else
      var destination :- Get(config, "destination_sync_mode");
      if !destination.JStr? then Err(TypeError)
      else Ok(Replace(source.s + "_" + destination.s, DedupMode, DedupName))
  }

  /** The stream's configuration holds the modes `source` and `destination`. */
  predicate ModesAre(stream: Json, source: string, destination: string)
  {
    && Get(stream, "config").Ok?
    && Get(Get(stream, "config").value, "sync_mode") == Ok(JStr(source))
    && Get(Get(stream, "config").value, "destination_sync_mode") == Ok(JStr(destination))
  }

  /** The modes of any such stream, whatever else it holds, are read back and joined, then
      renamed. */
  lemma SyncModeOf(stream: Json, source: string, destination: string)
    requires ModesAre(stream, source, destination)
    ensures SyncMode(stream) == Ok(Replace(source + "_" + destination, DedupMode, DedupName))
  {
  }

  /** A pair of modes that does not spell the append-dedup pair is joined as it is. */
  lemma SyncModePlain(stream: Json, source: string, destination: string)
    requires ModesAre(stream, source, destination) && !Contains(source + "_" + destination, DedupMode)
    ensures SyncMode(stream) == Ok(source + "_" + destination)
  {
    SyncModeOf(stream, source, destination);
    ReplaceAbsent(source + "_" + destination, DedupMode, DedupName);
  }

  /** `("incremental", "append_dedup")` becomes `incremental_deduped_history`. */
  lemma SyncModeDedup(stream: Json)
    requires ModesAre(stream, "incremental", "append_dedup")
    ensures SyncMode(stream) == Ok(DedupName)
  {
    SyncModeOf(stream, "incremental", "append_dedup");
    DedupSpelled();
    ReplaceWhole(DedupMode, DedupName);
  }

  /** The source mode, `_` and the destination mode spell the append-dedup pair. */
  lemma DedupSpelled()
    ensures "incremental" + "_" + "append_dedup" == DedupMode
  {
    var a := "incremental" + "_" + "append_dedup";
    forall k | 0 <= k < |a| ensures a[k] == DedupMode[k] {
    }
  }

  /** `("full_refresh", "overwrite")` becomes `full_refresh_overwrite`. */
  lemma SyncModeFullRefresh(stream: Json)
    requires ModesAre(stream, "full_refresh", "overwrite")
    ensures SyncMode(stream) == Ok("full_refresh_overwrite")
  {
    SyncModeOf(stream, "full_refresh", "overwrite");
    FullRefreshSpelled();
  }

  /** The full-refresh pair joins to a name the dedup rename leaves alone. */
  lemma FullRefreshSpelled()
    ensures Replace("full_refresh" + "_" + "overwrite", DedupMode, DedupName) == "full_refresh_overwrite"
  {
    assert "full_refresh" + "_" + "overwrite" == "full_refresh_overwrite";
    ReplaceAbsentShort("full_refresh_overwrite", DedupMode, DedupName);
  }

  const StreamKeys: seq<string> := ["name", "sync_mode", "cursor_field", "primary_key"]

  /** The dictionary literal of lines 309-314. */
  function StreamEntry(name: Json, syncMode: string, cursorField: Json, primaryKey: Json): (r: Json)
    ensures r.JObj? && Keys(r.fields) == StreamKeys
    ensures Find(r.fields, "name") == Some(name)
    ensures Find(r.fields, "sync_mode") == Some(JStr(syncMode))
    ensures Find(r.fields, "cursor_field") == Some(cursorField)
    ensures Find(r.fields, "primary_key") == Some(primaryKey)
  {
    var values := [name, JStr(syncMode), cursorField, primaryKey];
    var fields := seq(|StreamKeys|, i requires 0 <= i < |StreamKeys| => (StreamKeys[i], values[i]));
    assert Keys(fields) == StreamKeys;
    StreamFind(fields);
    JObj(fields)
  }

  /** Where the keys of a stream dictionary sit, each written once before that place. */
  lemma StreamKeysPlaced()
    ensures StreamKeys[0] == "name" && StreamKeys[1] == "sync_mode"
    ensures StreamKeys[2] == "cursor_field" && StreamKeys[3] == "primary_key"
    ensures forall j :: 0 <= j < 1 ==> StreamKeys[j] != "sync_mode"
    ensures forall j :: 0 <= j < 2 ==> StreamKeys[j] != "cursor_field"
    ensures forall j :: 0 <= j < 3 ==> StreamKeys[j] != "primary_key"
  {
  }

  /** In entries keyed as a stream dictionary, each key finds its own entry. */
  lemma StreamFind(fields: Fields)
    requires Keys(fields) == StreamKeys
    ensures Find(fields, "name") == Some(fields[0].1)
    ensures Find(fields, "sync_mode") == Some(fields[1].1)
    ensures Find(fields, "cursor_field") == Some(fields[2].1)
    ensures Find(fields, "primary_key") == Some(fields[3].1)
  {
    StreamKeysPlaced();
    StreamFindAt(fields, 0, "name");
    StreamFindAt(fields, 1, "sync_mode");
    StreamFindAt(fields, 2, "cursor_field");
    StreamFindAt(fields, 3, "primary_key");
  }

  lemma StreamFindAt(fields: Fields, i: nat, k: string)
    requires Keys(fields) == StreamKeys && i < |StreamKeys| && StreamKeys[i] == k
    requires forall j :: 0 <= j < i ==> StreamKeys[j] != k
    ensures Find(fields, k) == Some(fields[i].1)
  {
    assert forall j :: 0 <= j <= i ==> fields[j].0 == StreamKeys[j];
    FindAt(fields, i, k);
  }

  /** What the dictionary literal of lines 309-314 reads, in its order: the stream's `stream`
      entry and its name, both modes as strings, the default cursor field, and the primary
      key of its configuration. */
  predicate StreamConvertible(stream: Json)
  {
    && Get(stream, "stream").Ok?
    && Get(Get(stream, "stream").value, "name").Ok?
    && HasModes(stream)
    && Get(Get(stream, "stream").value, "default_cursor_field").Ok?
    && Get(Get(stream, "config").value, "primary_key").Ok?
  }

  /** The dictionary built for one stream of the local catalog, keys in the order written:
      the stream's name and default cursor field, its sync mode, and the primary key of its
      configuration. */
  function StreamTf(stream: Json): (r: Result<Json>)
    ensures r.Ok? <==> StreamConvertible(stream)
    ensures Get(stream, "stream").Err? ==> r == Err(Get(stream, "stream").error)
    ensures r.Ok? ==> SyncMode(stream).Ok? && r.value.JObj?
                      && Keys(r.value.fields) == StreamKeys
                      && Find(r.value.fields, "sync_mode") == Some(JStr(SyncMode(stream).value))
    ensures r.Ok? ==> var info := Get(stream, "stream");
                      var config := Get(stream, "config");
                      && info.Ok? && config.Ok?
                      && Get(info.value, "name").Ok? && Find(r.value.fields, "name") == Some(Get(info.value, "name").value)
                      && Get(info.value, "default_cursor_field").Ok?
                      && Find(r.value.fields, "cursor_field") == Some(Get(info.value, "default_cursor_field").value)
                      && Get(config.value, "primary_key").Ok?
                      && Find(r.value.fields, "primary_key") == Some(Get(config.value, "primary_key").value)
  {
    var info :- Get(stream, "stream");
    var name :- Get(info, "name");
    var syncMode :- SyncMode(stream);
    var cursorField :- Get(info, "default_cursor_field");
    var config := Get(stream, "config").value;
    var primaryKey :- Get(config, "primary_key");
    Ok(StreamEntry(name, syncMode, cursorField, primaryKey))
  }

  /** The values of a list of conversions in order, or the error of the first that fails. */
  function Collected(results: seq<Result<Json>>): (r: Result<seq<Json>>)
    ensures r.Ok? <==> forall i :: 0 <= i < |results| ==> results[i].Ok?
    ensures r.Ok? ==> |r.value| == |results| && forall i :: 0 <= i < |results| ==> results[i] == Ok(r.value[i])
    decreases |results|
  {
    if results == [] then Ok([])
    else
      var n := |results| - 1;
      var front := results[..n];
      assert forall i :: 0 <= i < n ==> front[i] == results[i];
      var init := Collected(front);
      if init.Err? then init
      else if results[n].Err? then Err(results[n].error)
      else Ok(init.value + [results[n].value])
  }

  /** Each stream of the local catalog converted on its own. */
  function Converted(streams: seq<Json>): (r: seq<Result<Json>>)
    ensures |r| == |streams| && forall i :: 0 <= i < |streams| ==> r[i] == StreamTf(streams[i])
  {
    seq(|streams|, i requires 0 <= i < |streams| => StreamTf(streams[i]))
  }

  /** The streams list of lines 307-315: one dictionary per stream in catalog order; the
      first stream that fails stops the conversion. */
  function StreamsTf(streams: seq<Json>): (r: Result<seq<Json>>)
    ensures r.Ok? <==> forall i :: 0 <= i < |streams| ==> StreamTf(streams[i]).Ok?
    ensures r.Ok? ==> |r.value| == |streams| && forall i :: 0 <= i < |streams| ==> StreamTf(streams[i]) == Ok(r.value[i])
  {
    Collected(Converted(streams))
  }

  /** Converting one more stream appends its result. */
  lemma ConvertedSnoc(streams: seq<Json>, n: nat)
    requires n < |streams|
    ensures Converted(streams[..n + 1]) == Converted(streams[..n]) + [StreamTf(streams[n])]
  {
    assert streams[..n + 1][..n] == streams[..n];
  }

  /** Collecting one more result: a failure so far stays, otherwise the new result decides. */
  lemma CollectedSnoc(results: seq<Result<Json>>, x: Result<Json>)
    ensures Collected(results + [x]) ==
              if Collected(results).Err? then Collected(results)
              else if x.Err? then Err(x.error) else Ok(Collected(results).value + [x.value])
  {
    assert (results + [x])[..|results|] == results;
  }

  method BuildStreams(streams: seq<Json>) returns (r: Result<seq<Json>>)
    ensures r == StreamsTf(streams)
  {
    var built: seq<Json> := [];
    var i := 0;
    while i < |streams|
      invariant 0 <= i <= |streams|
      invariant StreamsTf(streams[..i]) == Ok(built)
    {
      var streamTf := StreamTf(streams[i]);
      ConvertedSnoc(streams, i);
      CollectedSnoc(Converted(streams[..i]), streamTf);
      if streamTf.Err? {
        StreamsPrefixFails(streams, i + 1);
        return Err(streamTf.error);
      }
      built := built + [streamTf.value];
      i := i + 1;
    }
    assert streams[..i] == streams;
    return Ok(built);
  }

  /** A failing prefix makes the whole list fail with the same error. */
  lemma {:induction false} StreamsPrefixFails(streams: seq<Json>, n: nat)
    requires n <= |streams| && StreamsTf(streams[..n]).Err?
    ensures StreamsTf(streams) == StreamsTf(streams[..n])
    decreases |streams| - n
  {
    if n < |streams| {
      ConvertedSnoc(streams, n);
      CollectedSnoc(Converted(streams[..n]), StreamTf(streams[n]));
      StreamsPrefixFails(streams, n + 1);
    } else {
      assert streams[..n] == streams;
    }
  }

  /** `content["configuration"]["sync_catalog"]["streams"]`, iterated. */
  function CatalogStreams(content: Json): Result<seq<Json>>
  {
    var configuration :- Get(content, "configuration");
    var catalog :- Get(configuration, "sync_catalog");
    var streams :- Get(catalog, "streams");
    Iterate(streams)
  }

  const CronPlaceholder: string := "TODO: Convert to CRON"

  /** `connection["scheduleData"]["cron"]["cronExpression"]`. */
  function CronExpression(connection: Json): Result<Json>
  {
    var data :- Get(connection, "scheduleData");
    var cron :- Get(data, "cron");
    Get(cron, "cronExpression")
  }

  /** The schedule dictionary: `cron` carries the remote cron expression, `manual` has no
      `cron` entry, and any other type gets the placeholder. */
  function Schedule(connection: Json, scheduleType: Json): (r: Result<Json>)
    ensures r.Ok? ==> r.value.JObj? && Find(r.value.fields, "schedule_type") == Some(scheduleType)
    ensures scheduleType == JStr("cron") ==>
              (r.Ok? <==> CronExpression(connection).Ok?)
              && (r.Ok? ==> Find(r.value.fields, "cron") == Some(CronExpression(connection).value))
    ensures scheduleType == JStr("manual") ==> r.Ok? && Find(r.value.fields, "cron") == None
    ensures scheduleType != JStr("cron") && scheduleType != JStr("manual") ==>
              r.Ok? && Find(r.value.fields, "cron") == Some(JStr(CronPlaceholder))
  {
    var schedule := [("schedule_type", scheduleType)];
    if scheduleType == JStr("cron") then
      var expression :- CronExpression(connection);
      Ok(JObj(Put(schedule, "cron", expression)))
    else if scheduleType != JStr("manual") then
      Ok(JObj(Put(schedule, "cron", JStr(CronPlaceholder))))
    else
      Ok(JObj(schedule))
  }

  /** `"${" + table[id] + ".source_id}"`: the reference to the source resource registered under
      the remote source id. A list or dictionary cannot be a key (TypeError) and an id that was
      never registered raises KeyError naming that id. */
  function SourceRef(table: map<Json, string>, sourceId: Json): (r: Result<string>)
    ensures r.Ok? <==> sourceId in table && !sourceId.JArr? && !sourceId.JObj?
    ensures r.Ok? ==> r.value == "${" + table[sourceId] + ".source_id}"
    ensures sourceId.JArr? || sourceId.JObj? ==> r == Err(TypeError)
    ensures sourceId.JStr? && sourceId !in table ==> r == Err(KeyError(sourceId.s))
    ensures !sourceId.JArr? && !sourceId.JObj? && sourceId !in table ==> r == Err(KeyError(PyStr(sourceId).value))
  {
    if sourceId.JArr? || sourceId.JObj? then Err(TypeError)
    else if sourceId !in table then Err(KeyError(PyStr(sourceId).value))
    else Ok("${" + table[sourceId] + ".source_id}")
  }

  const ConnectionKeys: seq<string> := ["destination_id", "name", "namespace_definition", "namespace_format",
    "non_breaking_schema_updates_behavior", "source_id", "status", "schedule", "configurations"]

  /** Where the keys the conversion looks up sit in the connection dictionary, each written
      once before that place. */
  lemma ConnectionKeysPlaced()
    ensures ConnectionKeys[0] == "destination_id"
    ensures ConnectionKeys[1] == "name" && ConnectionKeys[2] == "namespace_definition"
    ensures ConnectionKeys[3] == "namespace_format" && ConnectionKeys[4] == "non_breaking_schema_updates_behavior"
    ensures ConnectionKeys[5] == "source_id" && ConnectionKeys[6] == "status"
    ensures ConnectionKeys[7] == "schedule" && ConnectionKeys[8] == "configurations"
    ensures forall j :: 0 <= j < 1 ==> ConnectionKeys[j] != "name"
    ensures forall j :: 0 <= j < 2 ==> ConnectionKeys[j] != "namespace_definition"
    ensures forall j :: 0 <= j < 3 ==> ConnectionKeys[j] != "namespace_format"
    ensures forall j :: 0 <= j < 4 ==> ConnectionKeys[j] != "non_breaking_schema_updates_behavior"
    ensures forall j :: 0 <= j < 5 ==> ConnectionKeys[j] != "source_id"
    ensures forall j :: 0 <= j < 6 ==> ConnectionKeys[j] != "status"
    ensures forall j :: 0 <= j < 7 ==> ConnectionKeys[j] != "schedule"
    ensures forall j :: 0 <= j < 8 ==> ConnectionKeys[j] != "configurations"
  {
  }

  /** In entries keyed as the connection dictionary, each key finds its own entry. */
  lemma ConnectionFind(fields: Fields)
    requires Keys(fields) == ConnectionKeys
    ensures Find(fields, "destination_id") == Some(fields[0].1)
    ensures Find(fields, "name") == Some(fields[1].1)
    ensures Find(fields, "namespace_definition") == Some(fields[2].1)
    ensures Find(fields, "namespace_format") == Some(fields[3].1)
    ensures Find(fields, "non_breaking_schema_updates_behavior") == Some(fields[4].1)
    ensures Find(fields, "source_id") == Some(fields[5].1)
    ensures Find(fields, "status") == Some(fields[6].1)
    ensures Find(fields, "schedule") == Some(fields[7].1)
    ensures Find(fields, "configurations") == Some(fields[8].1)
  {
    ConnectionKeysPlaced();
    ConnectionFindAt(fields, 0, "destination_id");
    ConnectionFindAt(fields, 1, "name");
    ConnectionFindAt(fields, 2, "namespace_definition");
    ConnectionFindAt(fields, 3, "namespace_format");
    ConnectionFindAt(fields, 4, "non_breaking_schema_updates_behavior");
    ConnectionFindAt(fields, 5, "source_id");
    ConnectionFindAt(fields, 6, "status");
    ConnectionFindAt(fields, 7, "schedule");
    ConnectionFindAt(fields, 8, "configurations");
  }

  /** One key of the connection dictionary finds the entry at its place. */
  lemma ConnectionFindAt(fields: Fields, i: nat, k: string)
    requires Keys(fields) == ConnectionKeys && i < |ConnectionKeys| && ConnectionKeys[i] == k
    requires forall j :: 0 <= j < i ==> ConnectionKeys[j] != k
    ensures Find(fields, k) == Some(fields[i].1)
  {
    assert forall j :: 0 <= j <= i ==> fields[j].0 == ConnectionKeys[j];
    FindAt(fields, i, k);
  }

  /** What lines 289-303 read from the remote connection, in the order the dictionary literal
      reads it. */
  datatype ConnectionParts = ConnectionParts(
    name: Json, namespace: string, namespaceFormat: Json, nonBreaking: Json,
    sourceRef: string, status: Json, schedule: Json)

  function ReadConnection(connection: Json, table: map<Json, string>): (r: Result<ConnectionParts>)
    ensures r.Ok? ==> Get(connection, "name") == Ok(r.value.name)
                      && Get(connection, "namespaceDefinition") == Ok(JStr(r.value.namespace))
                      && Get(connection, "namespaceFormat") == Ok(r.value.namespaceFormat)
                      && Get(connection, "nonBreakingChangesPreference") == Ok(r.value.nonBreaking)
                      && Get(connection, "status") == Ok(r.value.status)
                      && Get(connection, "sourceId").Ok?
                      && SourceRef(table, Get(connection, "sourceId").value) == Ok(r.value.sourceRef)
                      && Get(connection, "scheduleType").Ok?
                      && Schedule(connection, Get(connection, "scheduleType").value) == Ok(r.value.schedule)
  {
    var name :- Get(connection, "name");
    var namespace :- Get(connection, "namespaceDefinition");
    if !namespace.JStr? then Err(AttributeError)
    else
      var namespaceFormat :- Get(connection, "namespaceFormat");
      var nonBreaking :- Get(connection, "nonBreakingChangesPreference");
      var sourceId :- Get(connection, "sourceId");
      var sourceRef :- SourceRef(table, sourceId);
      var status :- Get(connection, "status");
      var scheduleType :- Get(connection, "scheduleType");
      var schedule :- Schedule(connection, scheduleType);
      Ok(ConnectionParts(name, namespace.s, namespaceFormat, nonBreaking, sourceRef, status, schedule))
  }

  /** The destination every connection points at. */
  const DestinationRef: string := "${airbyte_destination_bigquery.bigquery.destination_id}"

  /** The dictionary literal itself: each key of `ConnectionKeys` with the value written
      beside it, in the order written. */
  function ConnectionDict(p: ConnectionParts): (r: Json)
    ensures r.JObj? && Keys(r.fields) == ConnectionKeys
    ensures Find(r.fields, "destination_id") == Some(JStr(DestinationRef))
    ensures Find(r.fields, "name") == Some(p.name)
    ensures Find(r.fields, "namespace_definition") == Some(JStr(Replace(p.namespace, "customformat", "custom_format")))
    ensures Find(r.fields, "namespace_format") == Some(p.namespaceFormat)
    ensures Find(r.fields, "non_breaking_schema_updates_behavior") == Some(p.nonBreaking)
    ensures Find(r.fields, "source_id") == Some(JStr(p.sourceRef))
    ensures Find(r.fields, "status") == Some(p.status)
    ensures Find(r.fields, "schedule") == Some(p.schedule)
    ensures Find(r.fields, "configurations") == Some(JObj([]))
  {
    var values := [
      JStr(DestinationRef),
      p.name,
      JStr(Replace(p.namespace, "customformat", "custom_format")),
      p.namespaceFormat,
      p.nonBreaking,
      JStr(p.sourceRef),
      p.status,
      p.schedule,
      JObj([])];
    var fields := seq(|ConnectionKeys|, i requires 0 <= i < |ConnectionKeys| => (ConnectionKeys[i], values[i]));
    assert Keys(fields) == ConnectionKeys;
    ConnectionFind(fields);
    JObj(fields)
  }

  /** The connection dictionary of lines 286-305, before its streams are added. */
  function ConnectionTf(connection: Json, table: map<Json, string>): Result<Json>
  {
    var parts :- ReadConnection(connection, table);
    Ok(ConnectionDict(parts))
  }

  /** `connection_tf["configurations"]["streams"] = streams`. */
  function WithStreams(base: Json, streams: seq<Json>): Json
  {
    if base.JObj? then JObj(Put(base.fields, "configurations", JObj([("streams", JArr(streams))]))) else base
  }

  /** The connection dictionary as `json_to_tf` receives it. */
  function ConnectionJson(connection: Json, content: Json, table: map<Json, string>): Result<Json>
  {
    var base :- ConnectionTf(connection, table);
    var items :- CatalogStreams(content);
    var streams :- StreamsTf(items);
    Ok(WithStreams(base, streams))
  }

  /** The link to the source: an accepted connection carries the reference to the resource
      registered under its remote source id, and an unregistered id fails the conversion. */
  lemma ConnectionSourceId(connection: Json, table: map<Json, string>)
    ensures ConnectionTf(connection, table).Ok? ==>
              Get(connection, "sourceId").Ok? && Get(connection, "sourceId").value in table
              && Find(ConnectionTf(connection, table).value.fields, "source_id")
                 == Some(JStr("${" + table[Get(connection, "sourceId").value] + ".source_id}"))
    ensures Get(connection, "sourceId").Ok? && Get(connection, "sourceId").value !in table ==>
              ConnectionTf(connection, table).Err?
  {
    var r := ReadConnection(connection, table);
    if r.Ok? {
      assert ConnectionTf(connection, table) == Ok(ConnectionDict(r.value));
    }
  }

  /** The entries of an accepted connection, in the order Terraform will see them, with the
      namespace fix and the schedule rules. */
  lemma ConnectionShape(connection: Json, table: map<Json, string>)
    requires ConnectionTf(connection, table).Ok?
    ensures var fields := ConnectionTf(connection, table).value.fields;
            var namespace := Get(connection, "namespaceDefinition").value;
            var scheduleType := Get(connection, "scheduleType").value;
            var schedule := Find(fields, "schedule").value;
            && Keys(fields) == ConnectionKeys
            && Find(fields, "destination_id") == Some(JStr(DestinationRef))
            && Find(fields, "name") == Some(Get(connection, "name").value)
            && namespace.JStr?
            && Find(fields, "namespace_definition") == Some(JStr(Replace(namespace.s, "customformat", "custom_format")))
            && Find(fields, "namespace_format") == Some(Get(connection, "namespaceFormat").value)
            && Find(fields, "non_breaking_schema_updates_behavior")
               == Some(Get(connection, "nonBreakingChangesPreference").value)
            && Find(fields, "status") == Some(Get(connection, "status").value)
            && Find(fields, "configurations") == Some(JObj([]))
            && schedule.JObj? && Find(schedule.fields, "schedule_type") == Some(scheduleType)
            && (scheduleType == JStr("cron") ==> Find(schedule.fields, "cron") == Some(CronExpression(connection).value))
            && (scheduleType == JStr("manual") ==> Find(schedule.fields, "cron") == None)
            && (scheduleType != JStr("cron") && scheduleType != JStr("manual") ==>
                  Find(schedule.fields, "cron") == Some(JStr(CronPlaceholder)))
  {
    var p := ReadConnection(connection, table).value;
    assert ConnectionTf(connection, table) == Ok(ConnectionDict(p));
  }
}

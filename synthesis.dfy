/** The synthesis run itself: the accumulated Terraform text `OUTPUT` and the table
    `source_id_to_tf_name`, which the conversion steps update in place, in the order
    `generate_tf.py` runs them. Every step is a method of `Synthesizer`, proved against a
    function that says, from the state before the step, what the state after it is; the
    properties of the conversion are lemmas about those functions. */
module Synthesis {
  import opened Outcomes
  import opened Text
  import opened JsonValues
  import opened Scanner
  import opened Emitter
  import opened Resolver
  import opened Blocks
  import opened Normalizer
  import opened Secrets

  /** What a conversion step leaves behind: the output so far, the table so far, and the value
      it built or the exception that stopped it. An exception ends the whole run, so the state
      it leaves is never written out; it is recorded as the source leaves it. */
  datatype Run = Run(output: string, links: map<Json, string>, result: Result<Json>)

  /** A value that can be a dictionary key: lists and dictionaries cannot. */
  predicate Hashable(j: Json)
  {
    !j.JArr? && !j.JObj?
  }

  /** `source_id_to_tf_name[found[0]["sourceId"]] = address`, for one environment. */
  function Register(links: map<Json, string>, found: seq<Json>, address: string): (r: Result<map<Json, string>>)
    ensures r.Ok? <==> found != [] && Get(found[0], "sourceId").Ok? && Hashable(Get(found[0], "sourceId").value)
    ensures found == [] ==> r == Err(IndexError)
    ensures r.Ok? ==> Get(found[0], "sourceId").value in r.value && r.value[Get(found[0], "sourceId").value] == address
    ensures r.Ok? ==> forall k :: k in links && k != Get(found[0], "sourceId").value ==> k in r.value && r.value[k] == links[k]
    ensures r.Ok? ==> forall k :: k in r.value ==> k in links || k == Get(found[0], "sourceId").value
  {
    var record :- First(found);
    var id :- Get(record, "sourceId");
    if !Hashable(id) then Err(TypeError) else Ok(links[id := address])
  }

  /** The text `add_import_for_all_envs` appends (before its line break). */
  function ImportText(tfPath: string, remoteIds: PerEnv<seq<Json>>, idKey: string): (r: Result<string>)
    ensures r.Ok? <==> BindingIds(remoteIds, idKey).Ok?
    ensures remoteIds.dev == [] ==> r == Err(IndexError)
  {
    var ids :- BindingIds(remoteIds, idKey);
    Ok(ImportBlock(tfPath, ids.0, ids.1))
  }

  /** The three blank lines put before every converted resource. */
  const Spacer: string := "\n\n\n"

  /** The output once the spacer line is appended. */
  function Spaced(output: string): (r: string)
    ensures output <= r && |r| == |output| + 4
  {
    AppendKeeps(output, Spacer);
    AppendKeeps(output + Spacer, "\n");
    PrefixTrans(output, output + Spacer, output + Spacer + "\n");
    output + Spacer + "\n"
  }

  /** `resource "<type>" "<name>"`: the header the configuration block follows. */
  function ResourceHeader(tfType: string, name: string): string
  {
    "resource \"" + tfType + "\" \"" + name + "\""
  }

  /** The lines a conversion appends after its import: the import block, the resource header
      and the block's text, each followed by the line break `add_to_output` adds. */
  function Appended(block: string, tfType: string, name: string, text: string): string
  {
    block + "\n" + ResourceHeader(tfType, name) + "\n" + text + "\n"
  }

  /** What a conversion appends after its dictionary is built: the import block binding
      `tfPath` to the ids under `idKey` of the first dev and prod record, the resource header,
      and the dictionary's text, with secret references made variables when `secrets` is set. */
  predicate Emits(before: string, after: string, tfPath: string, remoteIds: PerEnv<seq<Json>>, idKey: string,
                  tfType: string, name: string, config: Json, secrets: bool)
  {
    && BindingIds(remoteIds, idKey).Ok?
    && JsonTf(config).Ok?
    && var ids := BindingIds(remoteIds, idKey).value;
       var tf := JsonTf(config).value;
       after == before + Appended(ImportBlock(tfPath, ids.0, ids.1), tfType, name,
                                  if secrets then Pass(SecretRef, tf) else tf)
  }

  /** Appending keeps what was there. */
  lemma AppendKeeps(a: string, b: string)
    ensures a <= a + b
  {
    assert (a + b)[..|a|] == a;
  }

  /** Lines 236-242 of `convert_source` and 323-328 of `convert_connections`, from the import
      on: the table is not touched and the output only grows; with no dev record nothing is
      appended and the step fails with IndexError; on success exactly `Emits` is appended. */
  function Emit(output: string, links: map<Json, string>, tfPath: string, remoteIds: PerEnv<seq<Json>>,
                idKey: string, tfType: string, name: string, config: Json, secrets: bool): (r: Run)
    ensures r.links == links && output <= r.output
    ensures remoteIds.dev == [] ==> r == Run(output, links, Err(IndexError))
    ensures r.result.Ok? <==> BindingIds(remoteIds, idKey).Ok? && JsonTf(config).Ok?
    ensures r.result.Ok? ==> r.result == Ok(config)
                             && Emits(output, r.output, tfPath, remoteIds, idKey, tfType, name, config, secrets)
  {
    var block := ImportText(tfPath, remoteIds, idKey);
    if block.Err? then Run(output, links, Err(block.error)) else
    var out2 := output + (block.value + "\n" + ResourceHeader(tfType, name) + "\n");
    AppendKeeps(output, block.value + "\n" + ResourceHeader(tfType, name) + "\n");
    var tf := JsonTf(config);
    if tf.Err? then Run(out2, links, Err(tf.error)) else
    var text := if secrets then Pass(SecretRef, tf.value) else tf.value;
    AppendKeeps(output, Appended(block.value, tfType, name, text));
    Run(output + Appended(block.value, tfType, name, text), links, Ok(config))
  }

  // ---- convert_source ----

  /** Lines 231-242 of `convert_source`: register both remote ids under the address (dev
      first), then emit. The output only grows and the table keeps every key it had; with
      no dev record the step fails with IndexError before registering anything; on success
      both ids point at the address and nothing else of the table changed. */
  function RegisterAndEmit(output: string, links: map<Json, string>, found: PerEnv<seq<Json>>,
                           address: string, tfPackage: string, sourceName: string, config: Json): (r: Run)
    ensures output <= r.output && links.Keys <= r.links.Keys
    ensures found.dev == [] ==> r == Run(output, links, Err(IndexError))
    ensures r.result.Ok? ==> && found.dev != [] && found.prod != []
                             && Get(found.dev[0], "sourceId").Ok? && Get(found.prod[0], "sourceId").Ok?
                             && r.links == links[Get(found.dev[0], "sourceId").value := address]
                                                [Get(found.prod[0], "sourceId").value := address]
                             && r.result == Ok(config)
                             && Emits(output, r.output, address, found, "sourceId", tfPackage, sourceName, config, true)
  {
    var dev := Register(links, found.dev, address);
    if dev.Err? then Run(output, links, Err(dev.error)) else
    var prod := Register(dev.value, found.prod, address);
    if prod.Err? then Run(output, dev.value, Err(prod.error)) else
    Emit(output, prod.value, address, found, "sourceId", tfPackage, sourceName, config, true)
  }

  /** `convert_source(file_path, content)` run on an output and a table: the source is looked up
      by name in each environment, its configuration rewritten, the table told that both its
      remote ids stand for its Terraform address, and the import block, the resource header and
      the configuration (secret references made variables) appended. The value built is the
      rewritten configuration, which the caller's `content` holds afterwards. */
  function SourceRun(output: string, links: map<Json, string>, sources: PerEnv<seq<Json>>,
                     filePath: string, content: Json): Run
  {
    var name := PathName(filePath);
    if name.Err? then Run(output, links, Err(name.error)) else
    var found := MatchAll(sources, content, "sources");
    if found.Err? then Run(output, links, Err(found.error)) else
    var converted := SourceConfig(content);
    if converted.Err? then Run(output, links, Err(converted.error)) else
    var tfPackage := converted.value.1;
    RegisterAndEmit(Spaced(output), links, found.value, SourceAddress(tfPackage, name.value),
                    tfPackage, name.value, converted.value.0)
  }

  /** The exceptions raised before anything is appended (a short path, more than one source
      with the name, a configuration without its bookkeeping keys) leave the output and the
      table as they were; in particular "Too much sources found" is raised before any append. */
  lemma SourceStopsEarly(output: string, links: map<Json, string>, sources: PerEnv<seq<Json>>,
                         filePath: string, content: Json)
    ensures var run := SourceRun(output, links, sources, filePath, content);
            PathName(filePath).Err? || MatchAll(sources, content, "sources").Err? || !Convertible(content)
            ==> run.output == output && run.links == links && run.result.Err?
    ensures var run := SourceRun(output, links, sources, filePath, content);
            PathName(filePath).Ok? && MatchByName(sources.dev, content).Ok? && MatchByName(sources.prod, content).Ok?
            && (|MatchByName(sources.dev, content).value| > 1 || |MatchByName(sources.prod, content).value| > 1)
            ==> run == Run(output, links, Err(Ambiguous("sources")))
  {
  }

  /** A source without a remote counterpart in dev fails with IndexError, after the spacer has
      been appended and before anything is registered. */
  lemma SourceMissingRemote(output: string, links: map<Json, string>, sources: PerEnv<seq<Json>>,
                            filePath: string, content: Json)
    requires PathName(filePath).Ok? && MatchAll(sources, content, "sources").Ok? && Convertible(content)
    requires MatchAll(sources, content, "sources").value.dev == []
    ensures SourceRun(output, links, sources, filePath, content)
            == Run(Spaced(output), links, Err(IndexError))
  {
  }

  /** A converted source: both remote ids now stand for its address `<type>.<name>` (the type
      derived from its image, the name from its directory with spaces made underscores) and
      nothing else of the table changed; the output has grown by the spacer, an import block
      binding the address to the dev and prod ids, the resource header and the rewritten
      configuration with its secret references turned into variables. */
  lemma SourceConverted(output: string, links: map<Json, string>, sources: PerEnv<seq<Json>>,
                        filePath: string, content: Json)
    requires SourceRun(output, links, sources, filePath, content).result.Ok?
    ensures var run := SourceRun(output, links, sources, filePath, content);
            && PathName(filePath).Ok? && MatchAll(sources, content, "sources").Ok? && Convertible(content)
            && var name := PathName(filePath).value;
               var found := MatchAll(sources, content, "sources").value;
               var config := SourceConfig(content).value.0;
               var tfPackage := SourceConfig(content).value.1;
               var address := tfPackage + "." + Underscored(name);
               && PackageName(Find(content.fields, "definition_image").value) == Ok(tfPackage)
               && found.dev != [] && found.prod != []
               && Get(found.dev[0], "sourceId").Ok? && Get(found.prod[0], "sourceId").Ok?
               && run.links == links[Get(found.dev[0], "sourceId").value := address]
                                    [Get(found.prod[0], "sourceId").value := address]
               && run.result == Ok(config)
               && Emits(Spaced(output), run.output, address, found, "sourceId", tfPackage, name, config, true)
  {
  }

  /** The remote records a converted source was registered under are the only ones in each
      environment that carry its name. */
  lemma SourceMatchedExactly(output: string, links: map<Json, string>, sources: PerEnv<seq<Json>>,
                             filePath: string, content: Json)
    requires SourceRun(output, links, sources, filePath, content).result.Ok?
    ensures var found := MatchAll(sources, content, "sources").value;
            && found.dev != [] && found.prod != []
            && (forall k :: 0 <= k < |sources.dev| && Named(sources.dev[k], content) ==> sources.dev[k] == found.dev[0])
            && (forall k :: 0 <= k < |sources.prod| && Named(sources.prod[k], content) ==> sources.prod[k] == found.prod[0])
  {
    SourceConverted(output, links, sources, filePath, content);
    MatchUnique(sources.dev, content);
    MatchUnique(sources.prod, content);
  }

  // ---- convert_connections ----

  const ConnectionPrefix: string := "airbyte_connection_"

  /** `airbyte_connection_<name>`, spaces made underscores. */
  function ConnectionName(connectionName: string): (r: string)
    ensures |r| == |ConnectionPrefix| + |connectionName| && r[..|ConnectionPrefix|] == ConnectionPrefix
    ensures ' ' !in r[|ConnectionPrefix|..]
    ensures forall i :: 0 <= i < |connectionName| ==>
              r[|ConnectionPrefix| + i] == if connectionName[i] == ' ' then '_' else connectionName[i]
  {
    var u := Underscored(connectionName);
    assert (ConnectionPrefix + u)[|ConnectionPrefix|..] == u;
    ConnectionPrefix + u
  }

  /** Two directory names give the same connection name exactly when they agree except that a
      space in one may stand where the other has an underscore. */
  lemma ConnectionNamesAgree(a: string, b: string)
    ensures ConnectionName(a) == ConnectionName(b)
            <==> |a| == |b| && forall i :: 0 <= i < |a| ==> a[i] == b[i] || (a[i] in " _" && b[i] in " _")
  {
    var ra, rb := ConnectionName(a), ConnectionName(b);
    var n := |ConnectionPrefix|;
    if |a| == |b| && forall i :: 0 <= i < |a| ==> a[i] == b[i] || (a[i] in " _" && b[i] in " _") {
      forall k | 0 <= k < |ra| ensures ra[k] == rb[k] {
        if k < n {
          assert ra[k] == ra[..n][k] && rb[k] == rb[..n][k];
        } else {
          assert ra[n + (k - n)] == rb[n + (k - n)];
        }
      }
    }
    if ra == rb {
      forall i | 0 <= i < |a| ensures a[i] == b[i] || (a[i] in " _" && b[i] in " _") {
        assert ra[n + i] == rb[n + i];
      }
    }
  }

  /** `convert_connections(file_path, content)` run on an output and a table: the connection is
      looked up by name in each environment, the production record and the local stream catalog
      make the connection dictionary (its source found through the table), and the import
      block, the resource header and the dictionary are appended. The table is only read. The
      value built is the dictionary given to `json_to_tf`. */
  function ConnectionRun(output: string, links: map<Json, string>, connections: PerEnv<seq<Json>>,
                         filePath: string, content: Json): Run
  {
    var name := PathName(filePath);
    if name.Err? then Run(output, links, Err(name.error)) else
    var found := MatchAll(connections, content, "remote_connections");
    if found.Err? then Run(output, links, Err(found.error)) else
    var connection := First(found.value.prod);
    if connection.Err? then Run(output, links, Err(connection.error)) else
    var built := ConnectionJson(connection.value, content, links);
    if built.Err? then Run(output, links, Err(built.error)) else
    var nameTf := ConnectionName(name.value);
    Emit(Spaced(output), links, "airbyte_connection." + nameTf, found.value, "connectionId",
         "airbyte_connection", nameTf, built.value, false)
  }

  /** Converting a connection never changes the table and only appends to the output, and the
      exceptions raised while the dictionary is built (a short path, "Too much
      remote_connections found", no production record, a source id missing from the table, a
      malformed catalog) leave the output as it was. */
  lemma ConnectionStopsEarly(output: string, links: map<Json, string>, connections: PerEnv<seq<Json>>,
                             filePath: string, content: Json)
    ensures var run := ConnectionRun(output, links, connections, filePath, content);
            run.links == links && output <= run.output
    ensures var run := ConnectionRun(output, links, connections, filePath, content);
            var found := MatchAll(connections, content, "remote_connections");
            PathName(filePath).Err? || found.Err? || found.value.prod == []
            || ConnectionJson(found.value.prod[0], content, links).Err?
            ==> run.output == output && run.result.Err?
    ensures var run := ConnectionRun(output, links, connections, filePath, content);
            PathName(filePath).Ok? && MatchByName(connections.dev, content).Ok? && MatchByName(connections.prod, content).Ok?
            && (|MatchByName(connections.dev, content).value| > 1 || |MatchByName(connections.prod, content).value| > 1)
            ==> run == Run(output, links, Err(Ambiguous("remote_connections")))
  {
  }

  /** A connection whose production record names a source id that no converted source
      registered fails, and writes nothing. */
  lemma ConnectionNeedsSource(output: string, links: map<Json, string>, connections: PerEnv<seq<Json>>,
                              filePath: string, content: Json)
    requires PathName(filePath).Ok? && MatchAll(connections, content, "remote_connections").Ok?
    requires MatchAll(connections, content, "remote_connections").value.prod != []
    requires var connection := MatchAll(connections, content, "remote_connections").value.prod[0];
             Get(connection, "sourceId").Ok? && Get(connection, "sourceId").value !in links
    ensures var run := ConnectionRun(output, links, connections, filePath, content);
            run.output == output && run.links == links && run.result.Err?
  {
    var connection := MatchAll(connections, content, "remote_connections").value.prod[0];
    ConnectionSourceId(connection, links);
  }

  /** Without a dev counterpart the dictionary is still built from the production record, and
      the run fails with IndexError after the spacer has been appended. */
  lemma ConnectionMissingDev(output: string, links: map<Json, string>, connections: PerEnv<seq<Json>>,
                             filePath: string, content: Json)
    requires PathName(filePath).Ok? && MatchAll(connections, content, "remote_connections").Ok?
    requires var found := MatchAll(connections, content, "remote_connections").value;
             found.dev == [] && found.prod != [] && ConnectionJson(found.prod[0], content, links).Ok?
    ensures ConnectionRun(output, links, connections, filePath, content)
            == Run(Spaced(output), links, Err(IndexError))
  {
  }

  /** A converted connection: its dictionary is the production record's, with `source_id` the
      reference to the address the table holds for that record's source id and the streams of
      the local catalog; the table is unchanged. */
  lemma ConnectionConverted(output: string, links: map<Json, string>, connections: PerEnv<seq<Json>>,
                            filePath: string, content: Json)
    requires ConnectionRun(output, links, connections, filePath, content).result.Ok?
    ensures var run := ConnectionRun(output, links, connections, filePath, content);
            && PathName(filePath).Ok? && MatchAll(connections, content, "remote_connections").Ok?
            && var nameTf := ConnectionName(PathName(filePath).value);
               var found := MatchAll(connections, content, "remote_connections").value;
               && found.dev != [] && found.prod != []
               && var connection := found.prod[0];
                  && ConnectionTf(connection, links).Ok?
                  && var base := ConnectionTf(connection, links).value;
                     && Get(connection, "sourceId").Ok? && Get(connection, "sourceId").value in links
                     && Find(base.fields, "source_id") == Some(JStr("${" + links[Get(connection, "sourceId").value] + ".source_id}"))
                     && CatalogStreams(content).Ok? && StreamsTf(CatalogStreams(content).value).Ok?
                     && run.result == Ok(WithStreams(base, StreamsTf(CatalogStreams(content).value).value))
                     && run.links == links
  {
    var found := MatchAll(connections, content, "remote_connections").value;
    ConnectionSourceId(found.prod[0], links);
  }

  /** What a converted connection appends: the spacer, an import block binding
      `airbyte_connection.<name>` to the dev and prod connection ids, the resource header and
      the dictionary's text. */
  lemma ConnectionEmitted(output: string, links: map<Json, string>, connections: PerEnv<seq<Json>>,
                          filePath: string, content: Json)
    requires ConnectionRun(output, links, connections, filePath, content).result.Ok?
    ensures PathName(filePath).Ok? && MatchAll(connections, content, "remote_connections").Ok?
    ensures var run := ConnectionRun(output, links, connections, filePath, content);
            var nameTf := ConnectionName(PathName(filePath).value);
            Emits(Spaced(output), run.output, "airbyte_connection." + nameTf,
                  MatchAll(connections, content, "remote_connections").value, "connectionId",
                  "airbyte_connection", nameTf, run.result.value, false)
  {
  }

  /** The link between the two conversions: once a source is converted, the connection
      dictionary built from a production record that names the source's dev or prod remote id
      refers to the source's Terraform address `<type>.<name>`. */
  lemma ConnectionFollowsSource(output: string, links: map<Json, string>, sources: PerEnv<seq<Json>>,
                                sourcePath: string, sourceContent: Json, found: PerEnv<seq<Json>>,
                                name: string, config: Json, tfPackage: string, connection: Json, fields: Fields)
    requires PathName(sourcePath) == Ok(name) && SourceConfig(sourceContent) == Ok((config, tfPackage))
    requires MatchAll(sources, sourceContent, "sources") == Ok(found) && found.dev != [] && found.prod != []
    requires Get(connection, "sourceId") == Get(found.dev[0], "sourceId")
             || Get(connection, "sourceId") == Get(found.prod[0], "sourceId")
    requires SourceRun(output, links, sources, sourcePath, sourceContent).result.Ok?
    requires ConnectionTf(connection, SourceRun(output, links, sources, sourcePath, sourceContent).links) == Ok(JObj(fields))
    ensures var address := tfPackage + "." + Underscored(name);
            Find(fields, "source_id") == Some(JStr("${" + address + ".source_id}"))
  {
    SourceConverted(output, links, sources, sourcePath, sourceContent);
    var s := SourceRun(output, links, sources, sourcePath, sourceContent);
    ConnectionSourceId(connection, s.links);
    var address := tfPackage + "." + Underscored(name);
    assert s.links[Get(connection, "sourceId").value] == address;
  }

  // ---- treat_all_octavia ----

  /** One `configuration.yaml` of the walk: converted as a source when its path has a
      `/sources/` directory and then as a connection when it has a `/connections/` one, the
      second conversion seeing the content the first rewrote. */
  function FileRun(output: string, links: map<Json, string>, sources: PerEnv<seq<Json>>,
                   connections: PerEnv<seq<Json>>, filePath: string, content: Json): Run
  {
    var first := if Contains(filePath, "/sources/") then SourceRun(output, links, sources, filePath, content)
                 else Run(output, links, Ok(content));
    if first.result.Err? || !Contains(filePath, "/connections/") then first
    else ConnectionRun(first.output, first.links, connections, filePath, first.result.value)
  }

  /** The walk over the configuration files, in the order given; the first exception ends it. */
  function WalkRun(output: string, links: map<Json, string>, sources: PerEnv<seq<Json>>,
                   connections: PerEnv<seq<Json>>, files: seq<(string, Json)>): Run
    decreases |files|
  {
    if files == [] then Run(output, links, Ok(JNull))
    else
      var before := WalkRun(output, links, sources, connections, files[..|files| - 1]);
      if before.result.Err? then before
      else FileRun(before.output, before.links, sources, connections, files[|files| - 1].0, files[|files| - 1].1)
  }

  /** One more file continues a walk that has not failed with that file's run. */
  lemma WalkNext(output: string, links: map<Json, string>, sources: PerEnv<seq<Json>>,
                 connections: PerEnv<seq<Json>>, files: seq<(string, Json)>, i: nat, before: Run)
    requires i < |files| && before == WalkRun(output, links, sources, connections, files[..i]) && before.result.Ok?
    ensures WalkRun(output, links, sources, connections, files[..i + 1])
            == FileRun(before.output, before.links, sources, connections, files[i].0, files[i].1)
  {
    assert files[..i + 1][..i] == files[..i];
  }

  /** The first exception ends the walk: the files after it change nothing. */
  lemma {:induction false} WalkStops(output: string, links: map<Json, string>, sources: PerEnv<seq<Json>>,
                                     connections: PerEnv<seq<Json>>, files: seq<(string, Json)>, k: nat)
    requires k <= |files| && WalkRun(output, links, sources, connections, files[..k]).result.Err?
    ensures WalkRun(output, links, sources, connections, files) == WalkRun(output, links, sources, connections, files[..k])
    decreases |files| - k
  {
    if k < |files| {
      assert files[..k + 1][..k] == files[..k];
      WalkStops(output, links, sources, connections, files, k + 1);
    } else {
      assert files[..k] == files;
    }
  }

  /** A file that is neither a source nor a connection changes nothing. */
  lemma FileIgnored(output: string, links: map<Json, string>, sources: PerEnv<seq<Json>>,
                    connections: PerEnv<seq<Json>>, filePath: string, content: Json)
    requires !Contains(filePath, "/sources/") && !Contains(filePath, "/connections/")
    ensures FileRun(output, links, sources, connections, filePath, content) == Run(output, links, Ok(content))
  {
  }

  /** A source conversion only appends to the output and only adds to the table. */
  lemma SourceGrows(output: string, links: map<Json, string>, sources: PerEnv<seq<Json>>,
                    filePath: string, content: Json)
    ensures var run := SourceRun(output, links, sources, filePath, content);
            output <= run.output && links.Keys <= run.links.Keys
  {
    var run := SourceRun(output, links, sources, filePath, content);
    if run.output != output {
      var name := PathName(filePath).value;
      var found := MatchAll(sources, content, "sources").value;
      var tfPackage := SourceConfig(content).value.1;
      var r := RegisterAndEmit(Spaced(output), links, found, SourceAddress(tfPackage, name),
                               tfPackage, name, SourceConfig(content).value.0);
      assert run == r;
      PrefixTrans(output, Spaced(output), r.output);
    }
  }

  /** A prefix of a prefix is a prefix. */
  lemma PrefixTrans(a: string, b: string, c: string)
    requires a <= b && b <= c
    ensures a <= c
  {
    assert c[..|a|] == b[..|a|];
  }

  /** One file only appends to the output and only adds to the table. */
  lemma FileGrows(output: string, links: map<Json, string>, sources: PerEnv<seq<Json>>,
                  connections: PerEnv<seq<Json>>, filePath: string, content: Json)
    ensures var run := FileRun(output, links, sources, connections, filePath, content);
            output <= run.output && links.Keys <= run.links.Keys
  {
    var first := if Contains(filePath, "/sources/") then SourceRun(output, links, sources, filePath, content)
                 else Run(output, links, Ok(content));
    if Contains(filePath, "/sources/") {
      SourceGrows(output, links, sources, filePath, content);
    }
    if first.result.Ok? && Contains(filePath, "/connections/") {
      var second := ConnectionRun(first.output, first.links, connections, filePath, first.result.value);
      ConnectionStopsEarly(first.output, first.links, connections, filePath, first.result.value);
      GrowsTwice(output, links, first, second);
    }
  }

  /** Growing twice is growing. */
  lemma GrowsTwice(output: string, links: map<Json, string>, first: Run, second: Run)
    requires output <= first.output && links.Keys <= first.links.Keys
    requires first.output <= second.output && first.links.Keys <= second.links.Keys
    ensures output <= second.output && links.Keys <= second.links.Keys
  {
    PrefixTrans(output, first.output, second.output);
  }

  /** The whole walk only appends to the output, and every id in the table before it is still
      in the table after it (a later source with the same remote id takes the entry over). */
  lemma {:induction false} WalkGrows(output: string, links: map<Json, string>, sources: PerEnv<seq<Json>>,
                                     connections: PerEnv<seq<Json>>, files: seq<(string, Json)>)
    ensures var run := WalkRun(output, links, sources, connections, files);
            output <= run.output && links.Keys <= run.links.Keys
    decreases |files|
  {
    if files != [] {
      var before := WalkRun(output, links, sources, connections, files[..|files| - 1]);
      WalkGrows(output, links, sources, connections, files[..|files| - 1]);
      if before.result.Ok? {
        FileGrows(before.output, before.links, sources, connections, files[|files| - 1].0, files[|files| - 1].1);
      }
    }
  }

  // ---- the synthesizer ----

  /** The module-level state of `generate_tf.py`: `OUTPUT` and `source_id_to_tf_name`, with the
      remote listings fetched once at start-up and the data product name. */
  class Synthesizer {
    var output: string
    var sourceLinks: map<Json, string>
    const sources: PerEnv<seq<Json>>
    const connections: PerEnv<seq<Json>>
    const destinations: PerEnv<seq<Json>>
    const dpName: string

    constructor(sources: PerEnv<seq<Json>>, connections: PerEnv<seq<Json>>,
                destinations: PerEnv<seq<Json>>, dpName: string)
      ensures output == "" && sourceLinks == map[]
      ensures this.sources == sources && this.connections == connections
      ensures this.destinations == destinations && this.dpName == dpName
    {
      output := "";
      sourceLinks := map[];
      this.sources := sources;
      this.connections := connections;
      this.destinations := destinations;
      this.dpName := dpName;
    }

    /** `OUTPUT += content + "\n"`. */
    method AddToOutput(content: string)
      modifies this
      ensures output == old(output) + content + "\n"
      ensures sourceLinks == old(sourceLinks)
    {
      output := output + content + "\n";
    }

    /** Appends the import block binding `tfPath` to the id under `idKey` of the first dev and
        the first prod record; an empty list fails with IndexError before anything is
        appended. */
    method AddImportForAllEnvs(tfPath: string, remoteIds: PerEnv<seq<Json>>, idKey: string) returns (status: Status)
      modifies this
      ensures sourceLinks == old(sourceLinks)
      ensures var text := ImportText(tfPath, remoteIds, idKey);
              if text.Ok? then status == Done && output == old(output) + text.value + "\n"
              else status == Failed(text.error) && output == old(output)
    {
      var ids := BindingIds(remoteIds, idKey);
      if ids.Err? {
        return Failed(ids.error);
      }
      AddToOutput(ImportBlock(tfPath, ids.value.0, ids.value.1));
      return Done;
    }

    /** `add_bq_tf`: the destination import, taking the first destination of each environment
        without any filter, followed by the fixed BigQuery resource text. */
    method AddBqTf(resourceTemplate: string) returns (status: Status)
      modifies this
      ensures sourceLinks == old(sourceLinks)
      ensures var text := ImportText("airbyte_destination_bigquery.bigquery", destinations, "destinationId");
              if text.Ok? then status == Done && output == old(output) + text.value + "\n" + resourceTemplate + "\n"
              else status == Failed(text.error) && output == old(output)
    {
      status := AddImportForAllEnvs("airbyte_destination_bigquery.bigquery", destinations, "destinationId");
      if status.Done? {
        AddToOutput(resourceTemplate);
      }
    }

    /** Lines 236-242 of `convert_source` and 323-328 of `convert_connections`: the import, the
        resource header, and the block's text. */
    method EmitResource(tfPath: string, remoteIds: PerEnv<seq<Json>>, idKey: string,
                        tfType: string, name: string, config: Json, secrets: bool) returns (r: Result<Json>)
      modifies this
      ensures var run := Emit(old(output), old(sourceLinks), tfPath, remoteIds, idKey, tfType, name, config, secrets);
              output == run.output && sourceLinks == run.links && r == run.result
    {
      var block := ImportText(tfPath, remoteIds, idKey);
      var status := AddImportForAllEnvs(tfPath, remoteIds, idKey);
      if status.Failed? {
        return Err(status.error);
      }
      AddToOutput(ResourceHeader(tfType, name));
      HeaderGroups(old(output), block.value, ResourceHeader(tfType, name));
      var text :- JsonToTf(config);
      if secrets {
        text := AddVarToSecrets(text);
      }
      AddToOutput(text);
      AppendedGroups(old(output), block.value, ResourceHeader(tfType, name), text);
      return Ok(config);
    }

    /** Lines 231-242 of `convert_source`: the `for env in all_envs` registration, then the
        import and the resource. */
    method RegisterSource(found: PerEnv<seq<Json>>, address: string, tfPackage: string,
                          sourceName: string, config: Json) returns (r: Result<Json>)
      modifies this
      ensures var run := RegisterAndEmit(old(output), old(sourceLinks), found, address, tfPackage, sourceName, config);
              output == run.output && sourceLinks == run.links && r == run.result
    {
      var dev :- Register(sourceLinks, found.dev, address);
      sourceLinks := dev;
      var prod :- Register(sourceLinks, found.prod, address);
      sourceLinks := prod;
      r := EmitResource(address, found, "sourceId", tfPackage, sourceName, config, true);
    }

    /** `convert_source`, statement by statement. */
    method ConvertSource(filePath: string, content: Json) returns (r: Result<Json>)
      modifies this
      ensures var run := SourceRun(old(output), old(sourceLinks), sources, filePath, content);
              output == run.output && sourceLinks == run.links && r == run.result
    {
      var sourceName :- PathName(filePath);
      var found :- MatchAll(sources, content, "sources");
      var converted :- SourceConfig(content);
      AddToOutput(Spacer);
      assert output == Spaced(old(output));
      var sourcePathTf := SourceAddress(converted.1, sourceName);
      r := RegisterSource(found, sourcePathTf, converted.1, sourceName, converted.0);
    }

    /** `convert_connections`, statement by statement; the stream loop is `BuildStreams`. */
    method ConvertConnections(filePath: string, content: Json) returns (r: Result<Json>)
      modifies this
      ensures var run := ConnectionRun(old(output), old(sourceLinks), connections, filePath, content);
              output == run.output && sourceLinks == run.links && r == run.result
    {
      var connectionName :- PathName(filePath);
      var found :- MatchAll(connections, content, "remote_connections");
      var connection :- First(found.prod);
      var connectionTf :- ConnectionTf(connection, sourceLinks);
      var items :- CatalogStreams(content);
      var streams :- BuildStreams(items);
      connectionTf := WithStreams(connectionTf, streams);
      var connectionNameTf := ConnectionName(connectionName);
      AddToOutput(Spacer);
      assert output == Spaced(old(output));
      r := EmitResource("airbyte_connection." + connectionNameTf, found, "connectionId",
                        "airbyte_connection", connectionNameTf, connectionTf, false);
    }

    /** One file of `treat_all_octavia`'s walk: a source file is converted as a source, and a
        connection file as a connection, with the content the source conversion returned. */
    method TreatFile(filePath: string, content: Json) returns (r: Result<Json>)
      modifies this
      ensures var run := FileRun(old(output), old(sourceLinks), sources, connections, filePath, content);
              output == run.output && sourceLinks == run.links && r == run.result
    {
      r := Ok(content);
      if Contains(filePath, "/sources/") {
        r := ConvertSource(filePath, content);
        if r.Err? {
          return;
        }
      }
      if Contains(filePath, "/connections/") {
        r := ConvertConnections(filePath, r.value);
      }
    }

    /** `treat_all_octavia` over the configuration files in the order the walk visits them. */
    method TreatAll(files: seq<(string, Json)>) returns (status: Status)
      modifies this
      ensures var run := WalkRun(old(output), old(sourceLinks), sources, connections, files);
              output == run.output && sourceLinks == run.links
              && (if run.result.Ok? then status == Done else status == Failed(run.result.error))
    {
      var i := 0;
      while i < |files|
        invariant 0 <= i <= |files|
        invariant var run := WalkRun(old(output), old(sourceLinks), sources, connections, files[..i]);
                  output == run.output && sourceLinks == run.links && run.result.Ok?
      {
        ghost var before := WalkRun(old(output), old(sourceLinks), sources, connections, files[..i]);
        var r := TreatFile(files[i].0, files[i].1);
        WalkNext(old(output), old(sourceLinks), sources, connections, files, i, before);
        if r.Err? {
          WalkStops(old(output), old(sourceLinks), sources, connections, files, i + 1);
          return Failed(r.error);
        }
        i := i + 1;
      }
      assert files[..i] == files;
      return Done;
    }

    /** The script's top level (lines 402-410): the fixed preamble, the secret variables, the
        fixed global variables, the destination, every configuration file of the walk, then
        the clean-up; the fixed texts are parameters. The run starts from an empty output and
        an empty table, and the first exception ends it before the clean-up. */
    method Generate(initTemplate: string, names: seq<string>, order: seq<string>, providerTemplate: string,
                    globalsTemplate: string, bqTemplate: string, files: seq<(string, Json)>,
                    fixGithub: string -> string) returns (status: Status)
      requires output == "" && sourceLinks == map[]
      requires IsListing(order, UniqueSecrets(names))
      modifies this
      ensures var bq := ImportText("airbyte_destination_bigquery.bigquery", destinations, "destinationId");
              bq.Err? ==> status == Failed(bq.error)
      ensures var bq := ImportText("airbyte_destination_bigquery.bigquery", destinations, "destinationId");
              bq.Ok? ==>
                var preamble := initTemplate + "\n" + DeclaredText(order) + providerTemplate + "\n"
                                + globalsTemplate + "\n" + bq.value + "\n" + bqTemplate + "\n";
                var walk := WalkRun(preamble, map[], sources, connections, files);
                && (walk.result.Err? ==> status == Failed(walk.result.error))
                && (walk.result.Ok? ==> status == Done && sourceLinks == walk.links
                                        && output == CleanText(walk.output, dpName, fixGithub))
    {
      AddToOutput(initTemplate);
      assert output == initTemplate + "\n" by {
        assert "" + initTemplate == initTemplate;
      }
      CreateVarsForSecrets(names, order, providerTemplate);
      AddToOutput(globalsTemplate);
      status := AddBqTf(bqTemplate);
      if status.Failed? {
        return;
      }
      status := TreatAll(files);
      if status.Failed? {
        return;
      }
      CleanFileToValidTf(fixGithub);
    }

    /** `clean_file_to_valid_tf`, with `fixGithub` standing for `fix_github_source`. */
    method CleanFileToValidTf(fixGithub: string -> string)
      modifies this
      ensures output == CleanText(old(output), dpName, fixGithub)
      ensures sourceLinks == old(sourceLinks)
    {
      output := RunPass(QuotedRef, output);
      output := Replace(output, NamespaceRef, EscapedNamespaceRef);
      output := Replace(output, "\n{", "{");
      output := RunPass(ArrayGap, output);
      output := RunPass(ObjectGap, output);
      assert output == Prepared(old(output));
      if Contains(dpName, GithubMarker) {
        output := fixGithub(output);
      }
      ghost var before := output;
      output := Replace(output, "definition_id", "# definition_id");
      output := Replace(output, "airbyte_source_declarative_manifest", "airbyte_source_custom");
      output := Replace(output, "primary_key = []", "");
      output := Replace(output, "cursor_field = []", "");
      FinishSteps(before);
    }

    /** One turn of `create_vars_for_secrets`' loop. */
    method DeclareSecret(secret: string)
      modifies this
      ensures output == old(output) + Declaration(secret)
      ensures sourceLinks == old(sourceLinks)
    {
      if secret !in Handled {
        AddToOutput(VariableBlock(secret));
      }
    }

    /** `create_vars_for_secrets`: `order` is the order in which the loop visits the set of
        unprefixed secret names; one variable declaration is appended per visited name that is
        not handled elsewhere, then the fixed provider text. */
    method CreateVarsForSecrets(names: seq<string>, order: seq<string>, providerTemplate: string)
      requires IsListing(order, UniqueSecrets(names))
      modifies this
      ensures output == old(output) + DeclaredText(order) + providerTemplate + "\n"
      ensures sourceLinks == old(sourceLinks)
    {
      var i := 0;
      while i < |order|
        invariant 0 <= i <= |order|
        invariant output == old(output) + DeclaredText(order[..i])
        invariant sourceLinks == old(sourceLinks)
      {
        ghost var done := DeclaredText(order[..i]);
        DeclareSecret(order[i]);
        DeclaredNext(order, i, done);
        AppendsGroup(old(output), done, Declaration(order[i]));
        i := i + 1;
      }
      assert order[..i] == order;
      AddToOutput(providerTemplate);
    }
  }

  /** An append after an earlier text is an append of the two. */
  lemma AppendsGroup(before: string, earlier: string, block: string)
    ensures before + earlier + block == before + (earlier + block)
  {
  }

  /** Two appends in a row are the first followed by the second. */
  lemma HeaderGroups(before: string, block: string, header: string)
    ensures before + block + "\n" + header + "\n" == before + (block + "\n" + header + "\n")
  {
  }

  /** Four appends in a row are the first followed by the rest. */
  lemma AppendedGroups(before: string, block: string, header: string, text: string)
    ensures before + block + "\n" + header + "\n" + text + "\n" == before + (block + "\n" + header + "\n" + text + "\n")
  {
  }

  /** The four final replacements, one after the other, are `Finish`. */
  lemma FinishSteps(s: string)
    ensures Finish(s) == Replace(Replace(Replace(Replace(s, "definition_id", "# definition_id"),
                           "airbyte_source_declarative_manifest", "airbyte_source_custom"),
                           "primary_key = []", ""), "cursor_field = []", "")
  {
    FinalRulesValid();
    assert FinalRules[1..][1..][1..][1..] == [];
  }
}

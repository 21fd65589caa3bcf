# octavia-to-tf-migration in Dafny

`generate_tf.py` migrates an Airbyte data product from Octavia YAML files to one Terraform
file, `main.tf`. It works in six steps:

1. It reads the sources, connections and destinations that the dev and prod Airbyte
   instances report.
2. It appends a preamble, one variable per repository secret, the global variables and the
   BigQuery destination to a global text `OUTPUT`.
3. It walks the `configuration.yaml` files of the data product.
4. Each source becomes an `import` block and a `resource` block. The source's remote ids
   are recorded in the table `source_id_to_tf_name`.
5. Each connection becomes an `import` block and a `resource` block whose `source_id`
   points at the recorded source.
6. It runs a final series of textual substitutions on `OUTPUT` to make it valid Terraform.

This project models that core and proves what it does:

- the dictionary-to-HCL conversion of `json_to_tf` and `format_line`;
- the regular-expression passes of `add_var_to_secrets` and `clean_file_to_valid_tf`;
- name matching against the remote listings;
- the source rewrite;
- the link table;
- the connection dictionary, with its schedule and sync-mode rules;
- the import blocks;
- the secret variables.

Layout, one module per file:

- `outcomes.dfy` (`Outcomes`): Python's exceptions as `Error`, plus `Result`, `Option` and
  `Status`.
- `text.dfy` (`Text`):
  - `str.split` is modelled as `Split`, and `sep.join` as `Join`;
  - `str.replace` is modelled as `Replace`, with its reference definition
    `Join(Split(s, old), new)`;
  - lemmas about both.
- `json.dfy` (`JsonValues`): YAML/JSON values, and dictionaries as insertion-ordered
  association lists. It covers `d[k]`, `del d[k]` and `d[k] = v` with their KeyError and
  TypeError cases, and `str()` of a scalar.
- `dump.dfy` (`JsonDump`): the text `json.dumps(j, indent=4, separators=('', ' = '))`
  writes.
- `scanner.dfy` (`Scanner`):
  - the five regular expressions, each as a matcher proved against a declarative language
    (`InLang`, and `IsLongestMatch` for the greedy match);
  - `re.findall` as `FindAll`;
  - the loop `for found in founds: s = s.replace(found, ...)` as `RewriteAll`/`Pass`, run by
    `RunPass`.
- `emitter.dfy` (`Emitter`): `format_line`, `json_to_tf` and `add_var_to_secrets`.
- `resolver.dfy` (`Resolver`): the per-environment name matching and `found[0]`.
- `bracket_pass.dfy` (`BracketPass`): the `\[[^{]*]` pass of `json_to_tf` applied to the
  streams list a connection block dumps, and which closing braces gain a comma.
- `blocks.dfy` (`Blocks`):
  - the values and texts built from one configuration: path names, the rewritten source
    configuration, the import block and its round trip;
  - `get_sync_mode`, the stream dictionaries and the schedule;
  - the connection dictionary and its link to the source table.
- `normalizer.dfy` (`Normalizer`): the substitutions of `clean_file_to_valid_tf`.
- `secrets.dfy` (`Secrets`): the variables `create_vars_for_secrets` declares.
- `synthesis.dfy` (`Synthesis`):
  - the class `Synthesizer`, whose fields are `OUTPUT` and `source_id_to_tf_name`, and whose
    methods are the steps of the script;
  - each method is proved against a function (`SourceRun`, `ConnectionRun`, `WalkRun`,
    `CleanText`, …) that gives the state after the step from the state before it;
  - lemmas about those functions.

An exception in the script is fatal: `main.tf` is then never written. The model follows the
source's statement order, so a failing step leaves `OUTPUT` and the table exactly where
Python would leave them when the exception is raised.

## Model

| member | source | states |
|---|---|---|
| Synthesis.Synthesizer.AddToOutput | generate_tf.py:350-352 | the output grows by the content and a line break; the source table is untouched |
| Synthesis.Synthesizer.AddImportForAllEnvs | generate_tf.py:261-268 | appends the import block for the first dev and first prod id, plus a line break; an empty list or a missing id appends nothing and reports that error |
| Synthesis.ImportText | generate_tf.py:262-268 | the block fails exactly when reading the ids fails; an empty dev list gives IndexError |
| Blocks.BindingIds | generate_tf.py:264 | the two ids are `str()` of `remote_ids[env][0][id_key]`, dev then prod; IndexError on an empty dev list |
| Blocks.ImportRoundTrip | generate_tf.py:262-268 | the address and both ids can be read back from the import block, provided the ids hold no `"` and the address no line break |
| Synthesis.Synthesizer.ConvertSource | generate_tf.py:212-242 | the output, the table and the result after `convert_source` are those of `SourceRun` from the state before |
| Synthesis.Synthesizer.RegisterSource | generate_tf.py:231-242 | registration and emission as `RegisterAndEmit` says |
| Synthesis.Synthesizer.EmitResource | generate_tf.py:236-242 | import, header and block text as `Emit` says |
| Synthesis.RegisterAndEmit | generate_tf.py:231-242 | the output only grows and the table keeps its keys; with no dev record nothing is registered and IndexError is raised; on success the table is the old one with the dev id and then the prod id mapped to the address, and the import, header and secret-rewritten text are appended |
| Synthesis.Emit | generate_tf.py:236-242 | the table is untouched and the output only grows; no dev record gives IndexError with nothing appended; success holds exactly when the ids and the conversion succeed, and then exactly the import block, header and block text are appended |
| Synthesis.Register | generate_tf.py:233-234 | registration succeeds exactly when the list is non-empty and its first record has a hashable `sourceId`; that id then maps to the address, other keys keep their entries and no other key is added; an empty list gives IndexError |
| Synthesis.SourceStopsEarly | generate_tf.py:213-227 | a short path, a failed match or an unconvertible configuration leaves the output and the table unchanged; more than one source of that name raises Ambiguous("sources") before anything is appended |
| Synthesis.SourceMissingRemote | generate_tf.py:229-234 | a source with no dev counterpart fails with IndexError after the spacer is appended and before anything is registered |
| Synthesis.SourceConverted | generate_tf.py:212-242 | a converted source maps both its remote ids to `<type>.<name with underscores>`, where the type comes from its image; the rest of the table is unchanged; the result is the rewritten configuration; the output grows by the spacer, the import block, the header and the configuration with secrets made variables |
| Synthesis.SourceMatchedExactly | generate_tf.py:215-219 | the records a converted source was registered under are the only ones in each environment with its name |
| Synthesis.SourceGrows | generate_tf.py:212-242 | `convert_source` only appends to the output and only adds keys to the table |
| Synthesis.Synthesizer.ConvertConnections | generate_tf.py:276-328 | the output, the table and the result after `convert_connections` are those of `ConnectionRun` from the state before |
| Synthesis.ConnectionStopsEarly | generate_tf.py:276-319 | the table never changes and the output only grows; a short path, a failed or ambiguous match, an empty prod list, a missing table entry or a bad catalog appends nothing; more than one match raises Ambiguous("remote_connections") |
| Synthesis.ConnectionNeedsSource | generate_tf.py:293 | a connection whose source id is not in the table fails and writes nothing |
| Synthesis.ConnectionMissingDev | generate_tf.py:321-323 | with prod records but none in dev, the dictionary is still built and the run fails with IndexError after the spacer (the prod record is read at line 285) |
| Synthesis.ConnectionConverted | generate_tf.py:285-315 | a converted connection is built from the prod record; its `source_id` refers to the table's entry for that record's source id; it carries the catalog's streams; the table is unchanged |
| Synthesis.ConnectionEmitted | generate_tf.py:317-328 | a converted connection appends the spacer, the import block for `airbyte_connection.<name>` with the dev and prod connection ids, the header and the dictionary's text |
| Synthesis.ConnectionFollowsSource | generate_tf.py:293 | after a source is converted, the connection dictionary built from a record that names one of the source's remote ids has `source_id` equal to `${<type>.<name>.source_id}`, the source's address (the table is filled at lines 233-234) |
| Synthesis.ConnectionName | generate_tf.py:317-318 | the resource name is `airbyte_connection_` followed by the directory name, same length, with every space made `_` and every other character kept, so no space is left after the prefix |
| Synthesis.ConnectionNamesAgree | generate_tf.py:317-318 | two directory names give the same resource name exactly when they have the same length and differ only where one has a space and the other `_` |
| Synthesis.Synthesizer.TreatFile | generate_tf.py:205-209 | one file: the state after it and its result are those of `FileRun` |
| Synthesis.Synthesizer.TreatAll | generate_tf.py:198-209 | the state after the walk is that of `WalkRun` over the files in visiting order; the status is the first exception or Done |
| Synthesis.WalkStops | generate_tf.py:198-209 | after the first exception, the remaining files change nothing |
| Synthesis.WalkGrows | generate_tf.py:198-209 | the walk only appends to the output and never loses a key of the table |
| Synthesis.FileGrows | generate_tf.py:205-209 | one file only appends to the output and only adds keys to the table |
| Synthesis.FileIgnored | generate_tf.py:205-209 | a file outside `/sources/` and `/connections/` changes nothing |
| Synthesis.Synthesizer.AddBqTf | generate_tf.py:160-195 | appends the destination import for the first destination of each environment, then the resource text; an empty list appends nothing and gives the error |
| Synthesis.Synthesizer.Generate | generate_tf.py:402-410 | from an empty state: the preamble, the secret variables, the globals, the destination and the walk, then the clean-up; a failure in the destination or the walk is reported and skips the clean-up; on success the output is the cleaned text of the walk's output |
| Synthesis.Synthesizer.CleanFileToValidTf | generate_tf.py:362-397 | the output becomes `CleanText` of the old output; the GitHub fix is applied exactly when the data product name contains `_github_` |
| Synthesis.Synthesizer.DeclareSecret | generate_tf.py:130-140 | one turn of the loop appends the secret's declaration and a line break, or nothing for the four handled names |
| Synthesis.Synthesizer.CreateVarsForSecrets | generate_tf.py:126-157 | appends one declaration per visited secret name that is not one of the four handled ones, in visiting order, then the provider text |
| Secrets.DeclaredExactly | generate_tf.py:128-140 | a declared variable is exactly an unprefixed secret name other than the four handled ones; no variable is declared twice; every repository secret that is not handled gets one |
| Secrets.DeclaredDistinct | generate_tf.py:128-133 | visiting each name once declares each variable once |
| Secrets.Declared | generate_tf.py:129-133 | a name is declared exactly when it is visited and not handled |
| Secrets.EnvironmentsShareVariable | generate_tf.py:128 | `DEV_X`, `PROD_X` and `X` declare the same variable |
| Secrets.DevPrefixDropped | generate_tf.py:128 | a leading `DEV_` is dropped |
| Secrets.ProdPrefixDropped | generate_tf.py:128 | a leading `PROD_` is dropped |
| Emitter.FormatLine | generate_tf.py:342-347 | a line without `" = "` is kept; a line with it twice raises ValueError; otherwise the line becomes key, separator, value |
| Emitter.FormatLineKeyValue | generate_tf.py:343-346 | `key = value`, where that separator is the only `" = "` of the line, keeps the value verbatim and strips exactly the double quotes from the key |
| Emitter.FormatLines | generate_tf.py:333 | the list comprehension succeeds exactly when every line does, and then formats line by line |
| Emitter.JsonTf | generate_tf.py:331-339 | the conversion succeeds exactly when no dumped line has two `" = "` separators |
| Emitter.JsonToTf | generate_tf.py:331-339 | the method returns `JsonTf` of its argument: the dump, formatted line by line, followed by the bracket pass |
| Emitter.AddVarToSecrets | generate_tf.py:254-258 | the method returns the secret-reference pass of its argument |
| Emitter.SecretBecomesVar | generate_tf.py:255-257 | on a block laid out one value per line, where every secret reference `${x}` has a name not starting with `v`, `a` or `r`, the only other `$` open `${var.…}` references, and a line break follows each reference before any further `}`: every `${x}` becomes `${var.x}` and all other text is kept |
| Emitter.SecretRefKept | generate_tf.py:255 | a text whose every `$` opens a reference starting with `v`, `a` or `r` (the class `[^var]`) passes unchanged |
| Emitter.SecretInBlock | generate_tf.py:236-242 | in a source block with a password `${DB_PASSWORD}` and the workspace reference, the password becomes `${var.DB_PASSWORD}` and `${var.WORKSPACE_ID}` is kept |
| Emitter.GreedyLine | generate_tf.py:255-257 | a line holding `${x}`, other text and then `${var.y}` is one greedy match; the pass turns it into `${var.x}` … `${var.var.y}` |
| Scanner.RunPass | generate_tf.py:255-257 | each `for found in re.findall(...)` loop, replacing every copy of each match in turn, computes `Pass` (the same code also at lines 335-337, 366-370 and 378-385) |
| Scanner.MatchAtLongest | generate_tf.py:255 | each matcher returns the longest match at its position in the pattern's language, or none when no prefix matches (the patterns of lines 255, 335, 366, 378 and 383) |
| Scanner.FindAllInLang | generate_tf.py:255 | everything `findall` returns is a match of the pattern (the patterns of lines 255, 335, 366, 378 and 383) |
| Scanner.PassUntouched | generate_tf.py:255-257 | a text in which the pattern matches nowhere passes unchanged (the same code also at lines 335-337, 366-370 and 378-385) |
| Scanner.PassSingle | generate_tf.py:255-257 | a text in which the pattern matches only at one place, with that longest match, is rewritten there, or kept when the match is skipped; the rest of the text is kept (the same code also at lines 335-337, 366-370 and 378-385) |
| Scanner.PassLaid | generate_tf.py:255-257 | a text cut at its matches, where every match is found in turn and no earlier replacement reaches a later match, becomes the text with each match rewritten in place (or kept when skipped) (the same code also at lines 335-337, 366-370 and 378-385) |
| Normalizer.UnquotesReference | generate_tf.py:366-370 | on a document laid out one value per line, with a line break after each quoted reference `"${x}"` before any further `}"`, and between the references text in which no quoted reference starts and every `$` opens a `${…}` closed in the same stretch (as `${var.ENV}` and `${local.bigquery_gcp_project}` in the fixed blocks are): every reference loses its quotes and braces, except those whose text contains `SOURCE_NAMESPACE`, which are kept; all other text is kept |
| Normalizer.NamespaceTokenSkipped | generate_tf.py:368-369 | the pass skips a quoted reference `"${x}"` exactly when `x` contains `SOURCE_NAMESPACE` |
| Normalizer.EscapesNamespace | generate_tf.py:366-373 | on such a document, with no `${SOURCE_NAMESPACE}` between the references, the unquoting pass followed by the namespace replacement leaves `"$${SOURCE_NAMESPACE}"` for the namespace reference itself, keeps other references that mention the namespace quoted, makes every other reference bare and keeps all other text |
| Normalizer.EscapeLaid | generate_tf.py:373 | after the unquoting pass, the namespace replacement turns only the bare quoted namespace reference into `"$${SOURCE_NAMESPACE}"` |
| Normalizer.SeparatesAdjacent | generate_tf.py:378-385 | on any document cut at its matches, a `]` (or `}`) followed by spaces, one line break, spaces and `[` (or `{`): each such gap gets a comma after its closing bracket and all other text is kept |
| Normalizer.PreparedUntouched | generate_tf.py:365-385 | a text in which no quoted reference and no gap pattern match, and which holds neither `${SOURCE_NAMESPACE}` nor a line break before `{`, passes the first steps unchanged |
| Normalizer.CleanUntouched | generate_tf.py:362-397 | such a text, holding none of the four final patterns, is written unchanged for a data product whose name does not contain `_github_` |
| Normalizer.FinishByLine | generate_tf.py:392-397 | the final substitutions rewrite a document line by line |
| Normalizer.FinishAcross | generate_tf.py:392-397 | the final substitutions never reach across a line break |
| Normalizer.FinishUntouched | generate_tf.py:392-397 | a text containing none of the four patterns is kept |
| Normalizer.CommentsDefinitionId | generate_tf.py:392 | in a document whose only `definition_id` is the one shown, and with none of the later patterns, it becomes `# definition_id` and the rest is kept |
| Normalizer.RenamesManifestType | generate_tf.py:394 | the only `airbyte_source_declarative_manifest` of a document becomes `airbyte_source_custom`; the rest is kept |
| Normalizer.DeletesEmptyPrimaryKey | generate_tf.py:396 | the only `primary_key = []` of a document is deleted; the rest is kept |
| Normalizer.DeletesEmptyCursorField | generate_tf.py:397 | the only `cursor_field = []` of a document is deleted; the rest is kept |
| Resolver.MatchByName | generate_tf.py:217 | the matches are the records named like the content's `resource_name`, each with its multiplicity; success holds exactly when every name can be read (the same code also at line 281) |
| Resolver.MatchAll | generate_tf.py:216-219 | on success each environment has at most one match; more than one in either raises Ambiguous before anything else (the same code also at lines 280-283) |
| Resolver.MatchUnique | generate_tf.py:216-219 | an accepted match is exact: with no match, no record has the name; with one, it is the only record with the name |
| Resolver.First | generate_tf.py:234 | `found[0]` exists exactly when the list is non-empty, and raises IndexError otherwise (the same code also at line 285) |
| Blocks.PathName | generate_tf.py:213 | the fourth `/`-separated segment, which contains no `/`; IndexError on a shorter path (the same code also at line 277) |
| Blocks.Underscored | generate_tf.py:231 | same length; spaces become underscores and nothing else changes (the same code also at line 318) |
| Blocks.PackageName | generate_tf.py:225 | the image with `/` and `-` made `_`, character by character; AttributeError when the image is not a string |
| Blocks.SourceAddress | generate_tf.py:231-232 | the address is the package, a dot and the source name with every space made `_` and every other character kept; no space follows the dot |
| Blocks.AddressSplits | generate_tf.py:231-232 | for packages without a dot, two addresses are equal exactly when the packages are equal and the names agree once spaces are made `_` |
| Blocks.RenameResource | generate_tf.py:221-224 | succeeds exactly on a mapping with the definition type, version and `resource_name`; those three are gone and `name` holds the old `resource_name`; every other key is kept; the key order is the old order without the three keys, with `name` appended unless it was already there; KeyError naming the first missing key in the order of the deletions, TypeError on a non-mapping |
| Blocks.RenameFields | generate_tf.py:221-224 | the three-key rewrite on a mapping that has all three keys, with its key order |
| Blocks.DropDefinition | generate_tf.py:221-222 | `del` of the definition type and version: both gone, every other key kept in order |
| Blocks.NameFromResource | generate_tf.py:223-224 | `name` takes the value of `resource_name`, which is then deleted; every other key kept; the key order |
| Blocks.Configured | generate_tf.py:225-227 | after the rename, dropping the image and setting `workspace_id` gives a configuration converted from the original, with the package name |
| Blocks.PointAtWorkspace | generate_tf.py:226-227 | the image is gone and `workspace_id` is the variable reference; every other key is kept; the key order is the old order without the image, with `workspace_id` appended unless it was already there |
| Blocks.SourceConfig | generate_tf.py:221-227 | succeeds exactly on a mapping with the four bookkeeping keys and a string image; drops the four keys; moves `resource_name` to `name`; sets `workspace_id`; keeps every other key; the key order is the original order without the four keys, then `name`, then `workspace_id`, each unless already present; returns the package name of the image |
| Blocks.SyncMode | generate_tf.py:271-273 | succeeds exactly when the stream has a `config` mapping whose two modes are strings; the result is the source mode, `_`, the destination mode, with the append-dedup pair renamed; a missing `config` gives its KeyError or TypeError, a non-string source mode TypeError |
| Blocks.SyncModeOf | generate_tf.py:271-273 | for any stream whose modes are the strings given, the result is the renamed join |
| Blocks.SyncModePlain | generate_tf.py:272-273 | a join not containing `incremental_append_dedup` is kept |
| Blocks.SyncModeDedup | generate_tf.py:273 | incremental with append_dedup becomes `incremental_deduped_history` |
| Blocks.SyncModeFullRefresh | generate_tf.py:272-273 | full_refresh with overwrite stays `full_refresh_overwrite` |
| Blocks.StreamTf | generate_tf.py:309-314 | succeeds exactly when all five lookups succeed (the `stream` entry, its name and default cursor field, the two modes, the primary key); a missing `stream` entry gives its error; a stream dictionary has keys name, sync_mode, cursor_field, primary_key, in that order; the name and default cursor field come from the stream's `stream` entry, the primary key from its `config` entry, and the sync mode is the computed one |
| Blocks.StreamsTf | generate_tf.py:307-315 | one dictionary per stream in catalog order; succeeds exactly when every stream does |
| Blocks.BuildStreams | generate_tf.py:307-315 | the append loop computes `StreamsTf` and stops at the first failing stream |
| Blocks.StreamsPrefixFails | generate_tf.py:308-315 | a failing stream fails the whole list with its error |
| Blocks.Schedule | generate_tf.py:295-305 | `cron` carries the remote cron expression, `manual` has no `cron` entry, any other type gets the placeholder; the type is always kept |
| Blocks.SourceRef | generate_tf.py:293 | `${<table entry>.source_id}` exactly when the id is a hashable key of the table; a list or mapping gives TypeError; a missing id gives KeyError naming that id |
| Blocks.ConnectionDict | generate_tf.py:286-301 | the dictionary's nine keys in the order written, each holding its value: the destination reference, the name, the namespace with `customformat` renamed, the namespace format, the schema-change behaviour, the source reference, the status, the schedule and empty configurations |
| Blocks.ConnectionSourceId | generate_tf.py:293 | an accepted connection's `source_id` refers to the table's entry for its remote source id; an id missing from the table fails |
| Blocks.ConnectionShape | generate_tf.py:286-305 | every entry of an accepted connection read back from the remote record: destination, name, namespace with `customformat` renamed `custom_format`, namespace format, schema-change behaviour, status, empty configurations, and the three schedule rules |
| JsonDump.QuoteRoundTrip | generate_tf.py:332 | a dumped string literal reads back as the string and never spans two lines |
| JsonValues.Get | generate_tf.py:289-294 | `d[k]` succeeds exactly on a mapping with the key; KeyError or TypeError otherwise (the same code also at line 217) |
| JsonValues.Put | generate_tf.py:227 | `d[k] = v`: `k` then reads `v`, every other key reads as before, an existing key keeps its place and a new one is appended (the same code also at lines 223 and 307) |
| JsonValues.Del | generate_tf.py:221-226 | `del d[k]` removes exactly that key and keeps the others in order; KeyError when it is missing, TypeError on a non-mapping |
| JsonValues.Remove | generate_tf.py:221-226 | the entries without the key: it reads as absent, every other key as before, and the key order is the old one without it |
| Text.ReplaceJoinsSplit | generate_tf.py:225 | `str.replace` equals joining the pieces of a split at the pattern with the replacement in between (the same code also at lines 257, 273, 290 and 370-397) |
| Text.JoinSplit | generate_tf.py:333 | joining the pieces of a split gives back the text |
| Text.ReplaceAcross | generate_tf.py:392-397 | replacing a pattern that lacks a character commutes with text split at that character |
| BracketPass.StreamsFound | generate_tf.py:335 | `findall` over a two-stream list finds exactly two matches: from the first stream's cursor field to its last `]`, and from the second stream's cursor field to the `]` that closes the list |
| BracketPass.LastStreamRewritten | generate_tf.py:337 | rewriting the second match gives the last stream's `}` a comma and changes nothing else in it |
| BracketPass.StreamsListPass | generate_tf.py:335-337 | the whole pass over a two-stream list with empty cursor and key lists: exactly the last stream's `}` gains a comma; the brace between the streams and the rest of the text are unchanged |
| BracketPass.ConnectionStreamsPass | generate_tf.py:335-337 | the same for the streams list as `json_to_tf` lays out a connection's two stream dictionaries (indents of 8, 12 and 16 spaces, keys in the order of the dictionary literal) |

## Left out

- The environment reads, the Airbyte API calls and the listings they produce (lines 15-39) are left out. The model receives the listings as constructor arguments.
- `airbyte_helper.py` is not part of this model.
- The git clone (lines 42-50), the GitHub secrets request (lines 78-85), the write of `main.tf` and `terraform fmt` (lines 355-359), and the `print` calls at lines 202 and 411, are left out.
- The directory walk of `treat_all_octavia` is left out: the model takes the `configuration.yaml` files as a list, in visiting order. `dirs.sort(reverse=True)` is not modelled.
- The YAML parsing of those files is left out.
- The `sp_lm` destination check (lines 36-37) is left out.
- The fixed templates (`init_output`, `create_global_vars`, the provider text of `create_vars_for_secrets` and the BigQuery resource of `add_bq_tf`) are opaque parameters. They contain no data from the configuration.
- Blocks.ImportRoundTrip: holds only for ids without `"` and addresses without a line break, because the block's text cannot be parsed back otherwise.
- `fix_github_source` (lines 245-251) is an abstract function parameter. Its DOTALL regular expression rewrites credentials only for data products whose name contains `_github_`.
- CreateVarsForSecrets: the order in which Python iterates a set is unspecified, so it is a parameter. It must list the set of unprefixed names exactly once each.
- JsonValues.Json: a dictionary is a list of entries, which could repeat a key. The model assumes, as every YAML load and dictionary literal gives, that keys are unique. With a repeated key, `Find` and `Put` act on the first entry and `Del` removes them all.
- JsonDump.Dumps: the model follows the layout of `json.dumps` with indent 4 and the `' = '` separator, but no claim of byte equality with CPython is made. String escapes follow `ensure_ascii`: a character outside 0x20-0x7E without a short escape is written as a lower-case `\uXXXX`, and one above U+FFFF as a surrogate pair (JsonDump.EscapeChar). Floats are not modelled: numbers are integers only.
- BracketPass.StreamsListPass: stated for two streams whose cursor-field and primary-key lists are empty (`[]`), which is the layout the dump gives for those values. A non-empty nested list spans several lines and is not covered.
- JsonValues.PyStr: `str()` of a list or dictionary inside an f-string gives NotModelled rather than Python's repr text.
- Synthesis.Register: Python treats `1` and `True` as the same dictionary key. The model keeps them apart.
- CleanFileToValidTf: no idempotence claim is made. Running the clean-up twice adds a second round of commas and `# ` prefixes, as the source would.
- Synthesis.Synthesizer.ConvertSource: the caller's `content` dictionary is mutated in place in Python. The model returns the rewritten configuration instead, and `TreatAll` passes it on to the connection conversion of the same file.
- Emitter.SecretBecomesVar: stated for a block laid out with at most one reference per line. The pattern's `.*` is greedy, so a line holding `${x}` and later `${var.y}` is one match and comes out with `${var.var.y}` (Emitter.GreedyLine). Each match is also replaced wherever it occurs, so on a text with repeated or nested references only the fold `Scanner.Pass` describes the result.
- Normalizer.UnquotesReference: stated for a document with one quoted reference per line, for the same two reasons. Between the references other `${…}` references may stand, such as the fixed blocks' `${var.ENV}`, but each must close within its stretch. Normalizer.EscapesNamespace and Normalizer.EscapeLaid take the same layout. They also assume no bare `${SOURCE_NAMESPACE}` between the references, where the replacement would rewrite it as well. Normalizer.SeparatesAdjacent takes the same kind of layout for the bracket passes.
- Normalizer.CommentsDefinitionId: stated for a document holding one copy of the pattern, as are Normalizer.RenamesManifestType, Normalizer.DeletesEmptyPrimaryKey and Normalizer.DeletesEmptyCursorField. For any number of copies each step is `Text.Replace`, whose meaning `Text.ReplaceJoinsSplit` states, and `Normalizer.FinishByLine` gives the effect line by line.

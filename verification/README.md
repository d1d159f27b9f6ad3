# Flotilla, modelled and proved

Flotilla manages a development fleet: agents, branches, convoys of crews, hosts and releases. This project
models, in Dafny, the parts of it whose correctness is hardest to see from the code, and proves what they
promise. `dafny verify dfyconfig.toml` checks all of it.

- **The address grammar** (`flotilla-address`). UTF-8 bytes, canonical percent-encoding (sections 2.1 and 2.3
  of RFC 3986), typed segments with a strict parser and printer, containment as text, as segments, as a parent
  chain and as a byte range, completion from context, lenient resolution of what a person types, references,
  record names, and conditions and templates with JSON quoting (section 7 of RFC 8259). `Cursors` is the
  parser as it runs, a position advancing over the text; `Conditions` is what it must compute. What text means
  is stated apart from the parsers, as relations between spellings and values, and each parser returns a value
  exactly when its input means it (`Encoding.DecodeExactly`, `Json.UnquoteExactly`, `Spelled.ResolveExactly`,
  `Loose.ResolveConditionExactly`).
- **Release validation** (`generation_validation.py`). The in-archive link resolver, component composition,
  generations, guest layers and the guest payload.
- **Account bindings** (`account_access.rs`). Authorization, placement, selection, and the home pass as a state
  machine over versioned records in which any write may fail, run with grants that change arbitrarily.
- **Operational protocols.** The bootstrap repair under any schedule of failing and interrupted file system
  calls, the check that decides when it runs, and generation pruning with a protected set that changes between
  selection and each deletion.
- **Affected-package selection** (`selection.py`). The worklist against its least-fixpoint meaning.

Text is a sequence of Unicode scalar values. `lower`, the Unicode lowercase function, is a parameter with the
laws of `Casing.Lowercase`: idempotent, splitting at `/`, and keeping trimmed and non-empty text so; lowering
ASCII satisfies them (`Casing.AsciiIsLowercase`). A hash is a parameter, and claims are about its
inputs. Clocks, random draws, process and link observations, remote replies and failing calls are parameters
or schedules that range over everything.

## Where the code does less than it says

Each of these has a concrete or general lemma, and the exact condition under which the promise holds.

- `binding_name` says one name per requester and requirement. Different requesters can share one
  (`Bindings.NamesCollide`), and then a pass writes over an ended binding of someone else
  (`HomePass.CollisionReopens`, `HomePass.SharedNameReopens`). The condition is on names alone: the runs among
  some requesters keep every binding exactly when those requesters are named apart
  (`HomePass.AllRunsKeepExactly`), and convoys and roles without dots are named apart exactly when no role has
  two accesses that differ only in colons and dashes (`Bindings.DotlessApart`).
- One role in two vessels, with repositories such that grants authorize it in the second only, is bound and then
  revoked by the next pass (`HomePass.EmptyFirstRevokes`); `Bindings.SettlesExactly` covers it. Admission refuses
  a repeated agent role when it writes briefs (crates/flotilla-admission/src/convoy_admission.rs:1105-1118), so
  this needs a workflow admitted without that step.
- `place` says that joining two canonical texts is always the placed address. Under `usage:` an account must be
  in usage form, so the join can fail to parse (`Completion.AccountNotPlaced`); `Completion.JoinedIsWhole` gives
  the condition.
- Guest paths have one owner within a layer. Two layers may declare the same file
  (`GuestLayers.TwoLayersMayShare`); `GuestLayers.UniqueOwnersExactly` says when a composition does not.
- The archive walk refuses to descend through a regular file, but steps back from one with `..` when it reached
  it through a link: an archive that does so is accepted (`Archive.DotDotAfterFile`,
  `Archive.DotDotRefusedExactly`). Its results are clean all the same.
- A file belongs to the package with the longest directory, but the root package counts as one character long,
  so it can win over a package in a one-letter directory, and a change there then selects nothing
  (`Selection.OneLetterDirectory`, `Selection.NestedOverRoot`).
- A finished address resolves to itself exactly when its forge is unknown or its repository is in its forge's
  case (`Lenient.ResolvesToItself`); the strict parser also accepts others under self-hosted forges
  (`Lenient.OtherCaseResolvesElsewhere`).

## Model

| member | source | states |
|---|---|---|
| Utf8.DecodeOfEncode | crates/flotilla-address/src/encoding.rs:49-79 | every string is read back from its UTF-8 bytes |
| Utf8.EncodeOfDecode | crates/flotilla-address/src/encoding.rs:77-79 | accepted bytes are exactly the bytes of the string they decode to, so overlong and surrogate forms are refused |
| Kinds.FromTokenOfToken | crates/flotilla-address/src/kind.rs:77-136 | a kind's token names that kind and no other, and no kind is called `of` |
| Kinds.ShapesExactly | crates/flotilla-address/src/kind.rs:103-122 | the parents each kind may have admit exactly the listed shapes, none longer than four kinds |
| Forges.NormalisedRepository | crates/flotilla-address/src/forge.rs:26-38 | the case rule is idempotent and keeps an `owner/repo` one |
| Encoding.EncodedChars | crates/flotilla-address/src/encoding.rs:12-33 | an encoded value holds none of the separators of the grammar, and is empty only for the empty value |
| Encoding.DecodeOfEncode | crates/flotilla-address/src/encoding.rs:17-79 | canonical decoding undoes encoding for every value |
| Encoding.EncodeOfDecode | crates/flotilla-address/src/encoding.rs:38-79 | text the canonical decoder accepts is the one spelling of its value |
| Encoding.EncodeInjective | crates/flotilla-address/src/encoding.rs:17-33 | two values with one encoding are the same value |
| Encoding.LenientAgrees | crates/flotilla-address/src/encoding.rs:38-79 | lenient decoding agrees with canonical decoding wherever the latter accepts |
| Encoding.DecodeExactly | crates/flotilla-address/src/encoding.rs:38-92 | the decoder returns a value exactly when the text spells its bytes, bare or escaped: in either hex case and with needless escapes leniently, in the one canonical way strictly |
| Encoding.EncodeInto | crates/flotilla-address/src/encoding.rs:17-25 | the appending loop adds exactly the encoding to the buffer |
| Encoding.DecodeLoop | crates/flotilla-address/src/encoding.rs:49-79 | the index walk decodes as the step-by-step definition does, errors included |
| Addresses.PushWellFormed | crates/flotilla-address/src/address.rs:130-156 | `push` accepts exactly the admitted segments and keeps the text determined by the segments |
| Addresses.AdmittedExactly | crates/flotilla-address/src/address.rs:130-280 | segments are admitted exactly when their kinds make one of the shapes and every value has the form of its kind |
| Addresses.PushAt | crates/flotilla-address/src/address.rs:130-156 | pushing the segments of an admitted sequence one by one rebuilds it |
| Addresses.ArtifactWellFormed | crates/flotilla-address/src/address.rs:115-124 | an artifact is built exactly from an address without a subject that admits it, an admitted kind and a subject, and is finished |
| Addresses.SplitOfRender | crates/flotilla-address/src/address.rs:130-156 | the text splits at its slashes into exactly one part per segment and subject, whatever the values hold |
| Addresses.RenderAppend | crates/flotilla-address/src/address.rs:130-156 | the text of joined segments is the joined texts |
| Addresses.ParseOfPrint | crates/flotilla-address/src/address.rs:158-164 | every finished address parses back from its text to the same segments and subject |
| Addresses.PrintOfParse | crates/flotilla-address/src/address.rs:285-309 | text the strict parser accepts is reprinted unchanged and names a finished address |
| Addresses.TextIsIdentity | crates/flotilla-address/src/address.rs:323-329 | two finished addresses with one text are equal in segments and subject |
| Addresses.ParseLoop | crates/flotilla-address/src/address.rs:285-309 | the parsing loop, which grows text beside segments, computes the parse |
| Containment.ParentIsOneUp | crates/flotilla-address/src/address.rs:203-214 | the parent is the finished address one segment up, and an artifact's parent is its role |
| Containment.ParentLoop | crates/flotilla-address/src/address.rs:203-214 | the loop that cuts the text computes that parent |
| Containment.RangeIsPrefix | crates/flotilla-address/src/address.rs:225-228 | the byte range from `p/` up to `p0` holds exactly the byte strings that start with `p/` |
| Containment.RenderInjective | crates/flotilla-address/src/address.rs:311-315 | the text determines segments and subject, admitted or not |
| Containment.ContainmentAgrees | crates/flotilla-address/src/address.rs:203-228 | on every two finished addresses the text test, the segment prefix, the parent chain and the byte range agree |
| References.ParseOfPrintedReference | crates/flotilla-address/src/reference.rs:68-81 | every reference is parsed back from its text, whatever address and revision hold |
| References.PrintOfParsedReference | crates/flotilla-address/src/reference.rs:74-81 | an accepted reference is reprinted unchanged, with a finished address and a non-empty revision |
| RecordNames.FeedComponents | crates/flotilla-address/src/record.rs:39-43 | the loop feeds the hash exactly the length-framed components |
| RecordNames.NumberedShape | crates/flotilla-address/src/record.rs:85-94 | a change request or issue is a legal forge, a repository and a canonical number |
| RecordNames.RecordNameInjective | crates/flotilla-address/src/record.rs:32-94 | two change requests or issues share a record name only if they are the same address, `github.com` for `github` included |
| RecordNames.HexAt | crates/flotilla-address/src/record.rs:86-88 | each byte is its two lowercase hex digits, the high one first |
| RecordNames.NumberedNameIs | crates/flotilla-address/src/record.rs:85-94 | the name is `cr-` or `issue-`, the hex service (`github.com` for `github`), the hex repository and the number |
| RecordNames.UsageNameIs | crates/flotilla-address/src/record.rs:46-56 | a usage account's name is 54 characters of the digest of provider and account as they stand; an account alone has none |
| RecordNames.UsageInputInjective | crates/flotilla-address/src/record.rs:46-56 | digested inputs tell usage accounts apart when no provider has a NUL |
| RecordNames.UsageInputsCollide | crates/flotilla-address/src/record.rs:46-56 | two accounts with one input when a provider has a NUL |
| RecordNames.PlainNameIs | crates/flotilla-address/src/record.rs:57-70 | projects, convoys and hosts keep their names, and no other kind has a plain name |
| RecordNames.BigEndianSpells | crates/flotilla-address/src/record.rs:41-41 | a length is framed as its own number, most significant byte first |
| RecordNames.FramedInjective | crates/flotilla-address/src/record.rs:36-83 | equal framed inputs have equal components: no boundary can move |
| RecordNames.ArtifactShape | crates/flotilla-address/src/record.rs:36-45 | an artifact under a convoy has exactly the components the hash is fed |
| RecordNames.ArtifactNameInjective | crates/flotilla-address/src/record.rs:36-45 | without a digest collision, two artifacts under convoys share a record exactly when they differ at most in the project |
| RecordNames.MessageNameInjective | crates/flotilla-address/src/record.rs:76-83 | without a digest collision, equal message names mean equal receiver, sender and key |
| Completion.PlaceLoop | crates/flotilla-address/src/completion.rs:63-75 | the walk up from the context computes the placement |
| Completion.DeepestIsDeepest | crates/flotilla-address/src/completion.rs:63-75 | the ancestor taken admits the partial, is in the context's chain, and no deeper one admits it |
| Completion.JoinedIsWhole | crates/flotilla-address/src/completion.rs:66-70 | the joined text parses exactly when usage form allows it, and then to the joined segments |
| Completion.AccountNotPlaced | crates/flotilla-address/src/completion.rs:66-70 | a finished account that is not placed under a usage provider it may follow |
| Completion.PlaceSpec | crates/flotilla-address/src/completion.rs:63-75 | the placed address is the deepest admitting ancestor's segments followed by the partial's |
| Completion.MatchesSpec | crates/flotilla-address/src/completion.rs:51-52 | the matches are the candidates that end in the partial, in text order, each once |
| Completion.CompleteIgnoresOrder | crates/flotilla-address/src/completion.rs:43-60 | neither the order of candidates nor repetition changes the outcome |
| Completion.AmbiguousExactly | crates/flotilla-address/src/completion.rs:51-59 | ambiguity is reported exactly when the partial is unplaced and two different candidates match |
| Completion.CompleteEndsWithPartial | crates/flotilla-address/src/completion.rs:43-79 | a completed address is finished and ends in the partial's segments and subject |
| Completion.CompleteIdempotent | crates/flotilla-address/src/completion.rs:43-60 | completing a completed address returns it |
| Completion.TailCompletesUnderHead | crates/flotilla-address/src/completion.rs:43-75 | any tail that is an address of its own completes under its own head to the whole |
| Lenient.RebuildLoop | crates/flotilla-address/src/lenient.rs:70-101 | the accumulating loop computes the rebuilt address |
| Lenient.ResolveSegmentsLoop | crates/flotilla-address/src/lenient.rs:50-68 | the loop over typed segments computes the resolution |
| Lenient.RebuildBuilt | crates/flotilla-address/src/lenient.rs:70-101 | every rebuilt address is finished with its repository in its forge's case |
| Lenient.RebuildOf | crates/flotilla-address/src/lenient.rs:43-101 | rebuilding a finished address with a normal repository gives it back |
| Lenient.ResolvesToItself | crates/flotilla-address/src/lenient.rs:24-48 | a finished address resolves to itself exactly when its forge is unknown or its repository is normal |
| Lenient.OtherCaseResolvesElsewhere | crates/flotilla-address/src/lenient.rs:24-48 | a finished address under a known self-hosted forge that does not resolve to itself |
| Lenient.ResolvedIsBuilt | crates/flotilla-address/src/lenient.rs:24-169 | whatever `resolve` returns is finished, with an unknown forge or a normal repository |
| Lenient.ResolveIsCanonical | crates/flotilla-address/src/lenient.rs:24-169 | every resolved address, from segments, URL or short form, passes the strict parser and resolves to itself; which address it is, `Spelled.ResolveExactly` states |
| Pasted.RepositoryIs | crates/flotilla-address/src/address.rs:68-72 | a repository is refused exactly for its names, and is the forge and the lowered names |
| Pasted.ParseNumberExactly | crates/flotilla-address/src/lenient.rs:134-141 | the number parser reads back exactly the printed 64-bit numbers |
| Pasted.PathExactly | crates/flotilla-address/src/lenient.rs:157-168 | a path resolves exactly when it is a front page, clone, change request, issue or commit page, to that page's segments |
| Pasted.LinkRead | crates/flotilla-address/src/lenient.rs:145-154 | the host and path of every web link and remote, whatever user and port |
| Pasted.ReadLink | crates/flotilla-address/src/lenient.rs:145-154 | every text with a host and a path is such a link |
| Pasted.PathPartsExactly | crates/flotilla-address/src/lenient.rs:156-157 | the parts of a path, exactly: trailing slashes, query and fragment dropped |
| Pasted.PastedExactly | crates/flotilla-address/src/lenient.rs:24-169 | a link resolves exactly when it is to a page of a repository on a known host, and to that page's address |
| Pasted.NumberedLink | crates/flotilla-address/src/lenient.rs:143-169 | `https://host/owner/repo/pull/N` is change request N of the lowered repository, and `.../issues/N` issue N |
| Pasted.RemoteResolves | crates/flotilla-address/src/lenient.rs:143-169 | `git@host:owner/repo.git` is the repository |
| Spelled.NamedExactly | crates/flotilla-address/src/lenient.rs:103-107 | a forge is found by id first, then by host, `github` always public GitHub |
| Spelled.RebuildExactly | crates/flotilla-address/src/lenient.rs:70-101 | segments rebuild to an address exactly when it is finished and is those segments with forge, usage and repository names resolved |
| Spelled.ReadExactly | crates/flotilla-address/src/lenient.rs:50-66 | the loop over parts reads exactly the segments they spell, in any token case and escape spelling, and a subject only last |
| Spelled.ShortExactly | crates/flotilla-address/src/lenient.rs:109-132 | a short form resolves exactly to the address its words stand for |
| Spelled.ResolveExactly | crates/flotilla-address/src/lenient.rs:24-169 | `resolve` returns an address exactly when the trimmed input means it: its own text, a link, typed segments or a short form, in that order |
| Json.UnquoteOfQuote | crates/flotilla-address/src/condition.rs:270-276 | every string is read back from its JSON quoting |
| Json.UnquoteExactly | crates/flotilla-address/src/condition.rs:387-405 | a JSON string spells a value exactly when its quotes hold characters, named escapes, code units or surrogate pairs that write it |
| Json.QuoteIs | crates/flotilla-address/src/condition.rs:270-276 | each character is printed in one way: named if it has a short escape, coded below the space, else bare |
| Json.ScanFindsClosingQuote | crates/flotilla-address/src/condition.rs:387-412 | after any JSON spelling, whatever follows, the escape-tracking scan stops at its closing quote |
| Conditions.TakeComparisonOfPrint | crates/flotilla-address/src/condition.rs:338-345 | both modes read a printed comparison back, whatever path and literal hold |
| Conditions.JoinedWordsOf | crates/flotilla-address/src/condition.rs:430-430 | words spaced out by any whitespace are joined with one space |
| Conditions.BareExactly | crates/flotilla-address/src/condition.rs:155-268 | what needs no quotes and what names a variable, letter by letter |
| Loose.ComparisonExactly | crates/flotilla-address/src/condition.rs:338-440 | a typed comparison is read exactly as it is spelled: words or JSON strings after dots, an operator, and a literal as JSON, in single quotes or as words, with whitespace between |
| Loose.ResolveConditionExactly | crates/flotilla-address/src/condition.rs:114-123 | `Condition::resolve` returns a condition exactly when the input is an address that `resolve` takes it to mean, whitespace, and a spelling of its comparison |
| Loose.ResolveTemplateExactly | crates/flotilla-address/src/condition.rs:202-212 | `Template::resolve` returns a template exactly when the input spells its variable, arguments and comparison, with or without whitespace between |
| Conditions.ParseOfPrintedCondition | crates/flotilla-address/src/condition.rs:126-143 | every condition is parsed back from its text |
| Conditions.PrintOfParsedCondition | crates/flotilla-address/src/condition.rs:133-143 | an accepted condition text is reprinted unchanged, so a condition has one spelling |
| Conditions.ResolveOfPrintedCondition | crates/flotilla-address/src/condition.rs:117-123 | lenient parsing of a printed condition resolves its address and keeps the rest as strict parsing does |
| Conditions.ParseOfPrintedTemplate | crates/flotilla-address/src/condition.rs:204-237 | every template is parsed back from its text, strictly and leniently |
| Conditions.PrintOfParsedTemplate | crates/flotilla-address/src/condition.rs:220-237 | an accepted template text is reprinted unchanged |
| Conditions.ParseOfPrintedPath | crates/flotilla-address/src/condition.rs:80-101 | every field path is parsed back from its text |
| Conditions.PrintOfParsedPath | crates/flotilla-address/src/condition.rs:93-101 | an accepted field path is reprinted unchanged |
| Conditions.BindText | crates/flotilla-address/src/condition.rs:215-217 | binding a template is replacing its variable's text by the address's, and parsing |
| Cursors.Cursor.Token | crates/flotilla-address/src/condition.rs:308-314 | takes the token and leaves the position at the rest |
| Cursors.Cursor.Separator | crates/flotilla-address/src/condition.rs:316-327 | takes one space strictly and a run of whitespace leniently, or fails without accepting anything else |
| Cursors.Cursor.Quoted | crates/flotilla-address/src/condition.rs:387-412 | the scanning loop takes exactly the quoted word |
| Cursors.Cursor.Word | crates/flotilla-address/src/condition.rs:367-385 | takes a bare or quoted word |
| Cursors.Cursor.FieldPath | crates/flotilla-address/src/condition.rs:347-365 | the loop over segments takes the field path |
| Cursors.Cursor.Literal | crates/flotilla-address/src/condition.rs:414-440 | takes the literal to the end of the text |
| Cursors.Cursor.Comparison | crates/flotilla-address/src/condition.rs:338-345 | takes path, operator and literal |
| Cursors.Cursor.Variable | crates/flotilla-address/src/condition.rs:442-468 | takes the variable with its arguments |
| Cursors.ParseConditionText | crates/flotilla-address/src/condition.rs:136-142 | the cursor parser computes the strict parse that the inverses are proved of |
| Cursors.ResolveConditionText | crates/flotilla-address/src/condition.rs:117-123 | the cursor parser computes the lenient parse |
| Cursors.ParseTemplateText | crates/flotilla-address/src/condition.rs:230-236 | the same for strict templates |
| Cursors.ResolveTemplateText | crates/flotilla-address/src/condition.rs:204-212 | the same for lenient templates, with the path directly after the variable allowed |
| Archive.CollectSpec | ci/fleet-candidates/generation_validation.py:1086-1101 | collecting accepts only new names and keeps every entry under its own name |
| Archive.ResolveSettled | ci/fleet-candidates/generation_validation.py:1103-1140 | every successful resolution of any archive is a present path under the root with no link among its prefixes |
| Archive.AcceptedExactly | ci/fleet-candidates/generation_validation.py:1078-1155 | an archive is accepted exactly when its names collect, at least one does, every entry resolves, and every regular file to a member |
| Archive.AcceptedArchive | ci/fleet-candidates/generation_validation.py:1078-1155 | an accepted archive's members are exactly its entries, and each resolves |
| Archive.ResolvedPathIsClean | ci/fleet-candidates/generation_validation.py:1103-1155 | in an accepted archive no resolution, from any path, passes through a link or a regular file |
| Archive.ResolveIdempotent | ci/fleet-candidates/generation_validation.py:1103-1140 | resolving a resolved path returns it |
| Archive.CheckedViews | ci/fleet-candidates/generation_validation.py:1142-1155 | the output is the input names in order, each seen as a directory or as a regular file's bytes |
| Archive.DotDotRefusedExactly | ci/fleet-candidates/generation_validation.py:1109-1136 | a part followed by `..` is refused for a file exactly when it is one, or its link's target passes through one |
| Archive.DotDotAfterFile | ci/fleet-candidates/generation_validation.py:1109-1155 | an accepted archive whose link steps back from the file another link reached, and the same archive refused when the steps name the file itself |
| Archive.ResolveLoop | ci/fleet-candidates/generation_validation.py:1103-1140 | the loop over pending parts, calling itself for links, terminates and computes the resolution |
| Archive.ResolvesExactly | ci/fleet-candidates/generation_validation.py:1103-1140 | a path resolves exactly when some route of steps, each link followed from its own base, leads to a present path |
| Archive.LinkResolvesAsTarget | ci/fleet-candidates/generation_validation.py:1125-1136 | a symlink resolves as its directory and target do, a hard link as its target from the root |
| Archive.CheckedMembersLoop | ci/fleet-candidates/generation_validation.py:1078-1155 | the whole loop computes the verdict the theorems are about |
| Composition.ValidateComponent | ci/fleet-candidates/generation_validation.py:729-766 | accepts exactly the components whose facts parse, stay in their own namespace and repeat no key |
| Composition.ValidComponentExactly | ci/fleet-candidates/generation_validation.py:729-766 | a component is valid exactly when its name, platform and digests have their forms, its offers are texts of facts under its own name with no key twice, and its requirements are texts of different requirements |
| Composition.ValidateComposition | ci/fleet-candidates/generation_validation.py:769-789 | accepts exactly when every requirement is met by the last-wins fact table |
| Composition.ParseOfFactText | ci/fleet-candidates/generation_validation.py:148-148 | every fact is read back from its text |
| Composition.FactTextOfParse | ci/fleet-candidates/generation_validation.py:148-148 | a text that reads as a fact is that fact's |
| Composition.ParseOfRequirementText | ci/fleet-candidates/generation_validation.py:149-149 | every requirement is read back from its text, `=` exactly and `>=` at least |
| Composition.RequirementTextOfParse | ci/fleet-candidates/generation_validation.py:149-149 | a text that reads as a requirement is that requirement's |
| Composition.KeyExactly | ci/fleet-candidates/generation_validation.py:148-149 | a key is exactly a name and one or more parts, joined by colons |
| Composition.AcceptedRequirementMet | ci/fleet-candidates/generation_validation.py:769-789 | in an accepted pin set each required text is answered by a provided text with its key and a number it admits |
| Composition.AcceptedAtLeast | ci/fleet-candidates/generation_validation.py:783-789 | a `>=` requirement is answered by a number at least as great |
| Composition.NamespaceUnique | ci/fleet-candidates/generation_validation.py:755-763 | a key belongs to one component name |
| Composition.OneProvider | ci/fleet-candidates/generation_validation.py:755-775 | no two facts of a pin set share a key |
| Composition.FactsAreTheProviders | ci/fleet-candidates/generation_validation.py:769-775 | the table holds for each key exactly its one provider's number |
| Composition.FactsIgnoreOrder | ci/fleet-candidates/generation_validation.py:769-775 | the table does not depend on the order of the pins |
| Composition.MetByItsProvider | ci/fleet-candidates/generation_validation.py:776-789 | a requirement is met exactly when some pinned fact answers it |
| Composition.CheckPins | ci/fleet-candidates/generation_validation.py:807-818 | accepts exactly valid components on their platform with distinct names |
| Composition.EffectivePins | ci/fleet-candidates/generation_validation.py:820-829 | disjoint platform and shared pins make one pin set |
| Composition.MergeSources | ci/fleet-candidates/generation_validation.py:832-836 | the loop accepts exactly when every component keeps one source pin, and records it |
| Composition.ValidateGeneration | ci/fleet-candidates/generation_validation.py:792-850 | accepts exactly the generations the declarative rules accept, returning every source pin |
| Composition.AcceptedGenerationComposes | ci/fleet-candidates/generation_validation.py:820-837 | on each platform of an accepted generation every requirement is answered by a pinned fact, and no other fact has its key |
| Composition.AcceptedGenerationSources | ci/fleet-candidates/generation_validation.py:832-836 | a component has one source pin wherever an accepted generation pins it |
| Composition.AcceptedIdentity | ci/fleet-candidates/generation_validation.py:837-846 | every daemon and session host an accepted generation pins is from the sources its identity names, and each platform's daemon offers the protocol version |
| Composition.AcceptedNames | ci/fleet-candidates/generation_validation.py:820-831 | every platform of an accepted generation is known and pins its own daemon and session host, and skills are shared |
| GuestLayers.CheckLayer | ci/fleet-candidates/generation_validation.py:210-280 | accepts exactly the layers the declarative rules accept |
| GuestLayers.SharesExactly | ci/fleet-candidates/generation_validation.py:188-190 | two members own a path in common exactly when one declaration lies in the other |
| GuestLayers.OneOwner | ci/fleet-candidates/generation_validation.py:338-343 | an accepted layer gives every path at most one owner |
| GuestLayers.InstallsApart | ci/fleet-candidates/generation_validation.py:188-280 | no install path of an accepted layer lies inside another |
| GuestLayers.LibraryIsPublished | ci/fleet-candidates/generation_validation.py:193-280 | every loaded library resolves to the install path of exactly one native member |
| GuestLayers.RunpathDown | ci/fleet-candidates/generation_validation.py:197-206 | going up and then down by names drops that many directories and appends the names, never above the root |
| GuestLayers.RunpathCancels | ci/fleet-candidates/generation_validation.py:197-206 | an empty part, a dot, or a name and the step back up can be left out anywhere |
| GuestLayers.GuestLibraryIs | ci/fleet-candidates/generation_validation.py:193-207 | a library is beside the file, or where the runpath leads from the file's directory |
| GuestLayers.UniqueOwnersExactly | ci/fleet-candidates/generation_validation.py:338-343 | accepted layers together give unique owners exactly when members of different layers share nothing |
| GuestLayers.TwoLayersMayShare | ci/fleet-candidates/generation_validation.py:338-343 | two accepted layers can declare one file |
| GuestLayers.ValidateGuestTools | ci/fleet-candidates/generation_validation.py:346-411 | the validator's loops compute the payload verdict |
| GuestLayers.AcceptedPayload | ci/fleet-candidates/generation_validation.py:346-411 | an accepted payload is exactly the catalog and indexed, owned files of the stated size and digest, with every declared member present |
| GuestRules.GuestPathExactly | ci/fleet-candidates/generation_validation.py:183-185 | a guest path is exactly names joined by slashes, none empty, a dot, a step up or with a backslash |
| GuestRules.LayerExactly | ci/fleet-candidates/generation_validation.py:210-280 | a layer is accepted exactly when every member, every pair of members and the environment keep the rules, stated on names |
| GuestRules.OwnerExactly | ci/fleet-candidates/generation_validation.py:338-343 | the owner of a name is the first member of the first layer that holds it |
| GuestRules.PayloadExactly | ci/fleet-candidates/generation_validation.py:346-411 | a payload is valid with a catalog exactly when the catalog is of the expected build, its layers and every indexed file keep the rules, all that is declared is indexed, and nothing else is there |
| GuestRules.AbsentExactly | ci/fleet-candidates/generation_validation.py:349-351 | there is nothing to check exactly when no guest path is there and none is required |
| Accounts.RequesterRoundTrip | crates/flotilla-resources/src/account_access.rs:244-265 | a requester has an address exactly when its names are not empty; the address is those names in order and names the requester back |
| Accounts.RequesterPartsLoop | crates/flotilla-resources/src/account_access.rs:253-265 | the loop over segments finds the convoy and role |
| Accounts.Authorize | crates/flotilla-admission/src/account_access.rs:217-229 | a credential is a candidate exactly when an applicable grant lists it and it supplies the access, with exactly those grants |
| Accounts.CheckPlacement | crates/flotilla-admission/src/account_access.rs:237-263 | passes exactly when every access has a plan and something usable, with what the host lacks excluded in place |
| Accounts.NarrowedUsable | crates/flotilla-admission/src/account_access.rs:247-253 | what stays usable is what was usable and is held |
| Accounts.Select | crates/flotilla-admission/src/account_access.rs:308-331 | a usable pin wins and any other is refused; otherwise the usable name at the drawn rank, up to the 32-bit bound |
| Accounts.DrawIsOneToOne | crates/flotilla-admission/src/account_access.rs:323-329 | different usable names have different ranks, all below their number |
| Bindings.NamesCollide | crates/flotilla-resources/src/account_access.rs:239-241 | two pairs of different requesters with one binding name |
| Bindings.DashedIs | crates/flotilla-resources/src/account_access.rs:239-241 | in an access every colon becomes a dash and everything else stays |
| Bindings.DotlessNames | crates/flotilla-resources/src/account_access.rs:239-241 | without dots in convoy and role, a name is shared exactly by equal convoys, roles and dashed accesses |
| Bindings.DotlessApart | crates/flotilla-resources/src/account_access.rs:239-241 | requesters without dots are named apart exactly when no role has two accesses that differ only in colons and dashes |
| Bindings.LineageHasRoom | crates/flotilla-schema/src/records.rs:60-64 | a strictly increasing lineage always has room for a greater epoch |
| Bindings.EpochExactly | crates/flotilla-admission/src/account_access.rs:530-530 | a positive epoch is read exactly from its 32-bit number, a plus sign and leading zeros allowed |
| Bindings.ReconciledEvolves | crates/flotilla-admission/src/account_access.rs:511-557 | one turn only ends a binding, follows its grants or appends a greater epoch |
| Bindings.ReconciledSettles | crates/flotilla-admission/src/account_access.rs:511-557 | a second turn under the same alternatives changes nothing |
| Bindings.StaysOpenExactly | crates/flotilla-admission/src/account_access.rs:511-557 | with each requester listed once, a turn leaves a binding open exactly when its credential is authorized and no newer login is for another account, with that candidate's grants and the greater epoch |
| Bindings.PassedMeans | crates/flotilla-admission/src/account_access.rs:461-569 | a pass closes an open binding of a terminal convoy, delivered until now exactly when delivered; otherwise revokes it without a grant or when a newer login is another account's, or follows its grants and epoch; and leaves every other binding alone |
| Bindings.CarriedIsOnly | crates/flotilla-admission/src/account_access.rs:487-502 | a carried credential is the only candidate among what the vessel carries |
| Bindings.CarriedExactly | crates/flotilla-admission/src/account_access.rs:487-502 | a credential is carried exactly when it is the one candidate among what the vessel carries, listed once |
| Bindings.UnboundSpec | crates/flotilla-admission/src/account_access.rs:479-507 | the pass returns exactly the alternatives with candidates and no binding, open or ended, each with what it carries |
| Bindings.OpenedAt | crates/flotilla-store/src/account_records.rs:148-169 | what `open` leaves under a name: the record there unless it had ended, or else the first pending one |
| Bindings.DisturbsExactly | crates/flotilla-store/src/account_records.rs:148-169 | `open` changes an existing record exactly when it had ended and a pending one has its name |
| Bindings.JustOpenedStands | crates/flotilla-admission/src/account_access.rs:333-362 | a binding just opened is left alone by a pass that finds the alternative it was opened from |
| Bindings.SettlesExactly | crates/flotilla-admission/src/account_access.rs:453-587 | with grants unchanged, pass and bind disturb nothing and leave the next pass nothing to do, exactly when no unbound requester's name is taken and the first alternative for each has candidates |
| Bindings.QuietSettles | crates/flotilla-admission/src/account_access.rs:462-473 | a teardown or a missing workflow settles at once |
| HomePass.KeepsExactly | crates/flotilla-admission/src/account_access.rs:453-587 | a pass and bind keep a binding's history unless it has ended and a pending record takes its name |
| HomePass.CompletedKeepsExactly | crates/flotilla-admission/src/account_access.rs:453-587 | the same, for a pass and bind that complete, in terms of the table and the alternatives before them |
| HomePass.ApartIsClear | crates/flotilla-admission/src/account_access.rs:479-507 | with requesters named apart and records at home, no name a turn needs is taken |
| HomePass.HomedStays | crates/flotilla-admission/src/account_access.rs:453-587 | every turn, cut short or not, leaves each record under a name of its own requester |
| HomePass.RunKeeps | crates/flotilla-admission/src/account_access.rs:453-587 | over every run of passes, cut short anywhere, among requesters named apart and from records at home: a binding keeps requester, credential and account, its epochs strictly grow, and once ended it never changes |
| HomePass.NoSecondBinding | crates/flotilla-admission/src/account_access.rs:479-507 | over every such run a requester that ever had a binding never gets another |
| HomePass.AllRunsKeepExactly | crates/flotilla-admission/src/account_access.rs:453-587 | all runs among some requesters keep all bindings exactly when those requesters are named apart |
| HomePass.SharedNameReopens | crates/flotilla-admission/src/account_access.rs:571-587 | any two requesters that share a name have a pass for one that writes over the other's revoked binding |
| HomePass.RunLineages | crates/flotilla-admission/src/account_access.rs:453-587 | over every run, name clashes included, all lineages stay strictly increasing |
| HomePass.AddedIsUnbound | crates/flotilla-admission/src/account_access.rs:571-587 | a record a turn adds is an unbound requester's, under its own name |
| HomePass.PassReturnsBindable | crates/flotilla-admission/src/account_access.rs:308-362 | what the pass returns can be bound, exactly unless a name is empty or an uncarried requester has 2^32 candidates or more |
| HomePass.MakePending | crates/flotilla-admission/src/account_access.rs:333-362 | a record is made exactly for a bindable requester: its address, opened now, with the pinned or drawn credential as the grants stand |
| HomePass.MakeAll | crates/flotilla-admission/src/account_access.rs:579-583 | records are made for all or the bind refuses |
| HomePass.CollisionReopens | crates/flotilla-admission/src/account_access.rs:571-587 | a pass over one convoy writes over another convoy's revoked binding |
| HomePass.EmptyFirstRevokes | crates/flotilla-admission/src/account_access.rs:519-530 | a bind for a role in two vessels whose binding the next pass revokes, with grants unchanged |
| HomePass.Store.Update | crates/flotilla-store/src/account_records.rs:60-68 | compare-and-write: a write at any other version than the record's is refused and changes nothing |
| HomePass.Store.Observe | crates/flotilla-store/src/account_records.rs:183-188 | appends one epoch, or refuses a full lineage |
| HomePass.Store.ReconcileOpen | crates/flotilla-admission/src/account_access.rs:511-569 | reaches exactly the reconciled binding in at most two writes, never conflicts, and reports a change exactly when it wrote, describing it |
| HomePass.Store.PassOne | crates/flotilla-admission/src/account_access.rs:461-478 | does to one binding what a pass means, teardown and other convoys' bindings included, and describes the change |
| HomePass.Store.Pass | crates/flotilla-admission/src/account_access.rs:453-508 | every binding ends as a pass means it to, teardown and revocation with their reasons and times; the report names exactly the changed ones; the unbound are returned; no conflict, and no refusal of an increasing lineage |
| HomePass.Store.Open | crates/flotilla-store/src/account_records.rs:148-169 | keeps an open record, writes over an ended one, creates a missing one |
| HomePass.Store.Bind | crates/flotilla-admission/src/account_access.rs:571-587 | opens a record for each unbound requester, or writes nothing when one cannot be bound |
| HomePass.Store.Reconcile | crates/flotilla-admission/src/convoy_admission.rs:1632-1664 | every call, failed or not, is one turn of the runs the theorems range over, and never ends in a conflict |
| Repair.SwapSound | scripts/fleet-preroll-checks.py:38-47 | replacing one installed file by its whole old or new content keeps every other promise of the write phase |
| Repair.Host.Precheck | scripts/fleet-preroll-checks.py:23-28 | passes only regular files whose backup path is free, and passes those when nothing fails |
| Repair.Host.BackUp | scripts/fleet-preroll-checks.py:23-36 | success leaves every original in a new backup of its own; failure leaves every earlier file as it was |
| Repair.Host.Swap | scripts/fleet-preroll-checks.py:39-47 | the target changes as a whole or not at all, and only this run's temporary appears |
| Repair.Host.Install | scripts/fleet-preroll-checks.py:37-47 | wherever it stops, each file is wholly old or wholly new, and nothing existing is lost |
| Repair.Host.Restore | scripts/fleet-preroll-checks.py:48-67 | without a noted failure every file is old again, and an ordinary failure does not stop the others |
| Repair.Host.Clean | scripts/fleet-preroll-checks.py:68-71 | removes only temporaries of this run |
| Repair.Host.Write | scripts/fleet-preroll-checks.py:37-71 | write, rollback and cleanup together: old or new, all old after a full rollback, nothing left behind when cleaned |
| Repair.Host.Run | scripts/fleet-preroll-checks.py:21-71 | under any schedule of faults: every file wholly old or new, every backup its original once anything may have changed, no other existing file touched; and with no fault and nothing in the way, all new |
| Preroll.NoDifferences | scripts/fleet-preroll-checks.py:116-118 | no complaint exactly when the hashes are the expected ones |
| Preroll.Fleet.CheckPair | scripts/fleet-preroll-checks.py:105-118 | reads first, writes only when allowed and different, and is quiet exactly when the last answer matched |
| Preroll.Fleet.CheckLabs | scripts/fleet-preroll-checks.py:136-142 | one read for each lab and never a write |
| Preroll.Fleet.CheckConsumers | scripts/fleet-preroll-checks.py:143-156 | every write follows a read of the same consumer that differed |
| Preroll.Fleet.Check | scripts/fleet-preroll-checks.py:134-156 | any write means permission, a paired manifest and every lab in order; no complaint means every last answer matched |
| Prune.ResolveMissingExactly | src/fleet_prune.rs:114-132 | a path resolves exactly when it has a deepest existing ancestor with no `..` below it, to that ancestor's canonical path and the rest |
| Prune.ResolveMissingLoop | src/fleet_prune.rs:114-132 | the walk up with its stack of missing names computes that |
| Prune.CheckLink | src/fleet_prune.rs:66-82 | a link is accepted exactly when missing or canonically a release directory, which it protects |
| Prune.CheckProcess | src/fleet_prune.rs:92-109 | a process is accepted exactly when exited or resolvable, and protects the release its resolved executable is inside |
| Prune.Protected | src/fleet_prune.rs:63-112 | succeeds exactly when links and processes can be established, with exactly the linked and the running releases |
| Prune.ProtectsExactly | src/fleet_prune.rs:63-112 | a release is protected exactly when the current or the previous link leads straight to it or a daemon's resolved executable is inside it |
| Prune.LinkSafeExactly | src/fleet_prune.rs:66-82 | a link is safe exactly when missing, or straight to a release that is a directory |
| Prune.ReadableExactly | src/fleet_prune.rs:91-104 | a process word is judged exactly when it is a positive 32-bit number of a process that is gone or whose executable resolves |
| Prune.GenerationNameIs | src/fleet_prune.rs:134-139 | a generation name, letter by letter |
| Prune.SaturatesOnce | src/fleet_prune.rs:180-185 | the saturating fold is the decimal value capped once, for every maximum |
| Prune.CandidatesExactly | src/fleet_prune.rs:141-144 | a release is a candidate exactly when it is unprotected and at least `keep` unprotected ones are newer |
| Prune.OwnerIsLongest | src/fleet_prune.rs:203-205 | a sidecar's owner is the longest generation name that it extends with a dot, and it is unique |
| Prune.Host.RemoveSidecars | src/fleet_prune.rs:219-227 | removes only sidecars of the release, and all of them on success |
| Prune.Host.Remove | src/fleet_prune.rs:218-227 | nothing but the release and its sidecars goes, and sidecars only after it |
| Prune.Host.TakeTurn | src/fleet_prune.rs:206-227 | a turn rechecks, and then skips a protected release or removes an unprotected one |
| Prune.Host.Carry | src/fleet_prune.rs:206-228 | the loop is a run in the sense of the theorems, and names exactly the releases found unprotected |
| Prune.Host.Run | src/fleet_prune.rs:172-229 | the command: a refused retention value or first look changes nothing; otherwise a planned run |
| Prune.OnlyUnprotectedChange | src/fleet_prune.rs:187-227 | anything removed or damaged is an unprotected candidate, at selection and at its recheck, or a sidecar of one |
| Prune.FailedRecheckStops | src/fleet_prune.rs:206-212 | a failed recheck is the last act of a run |
| Prune.RetainedSurvive | src/fleet_prune.rs:141-144 | a generation protected at selection, or with fewer than `keep` newer unprotected ones, is untouched |
| Prune.DryRunChangesNothing | src/fleet_prune.rs:213-217 | a dry run changes nothing |
| Prune.LostSidecarHadOwner | src/fleet_prune.rs:219-227 | in every run, failed ones included, a lost sidecar's owner is gone too |
| Prune.SidecarsFollowOwners | src/fleet_prune.rs:203-227 | after a run that succeeds a file is gone exactly when its longest-prefix owner is |
| Selection.BuildGraph | ci/affected/selection.py:170-182 | the loops build exactly the reverse dependencies with the read edges, and the readers of library files |
| Selection.Spread | ci/affected/selection.py:216-220 | the worklist ends with the least set that holds the seeds and is closed under dependents |
| Selection.Select | ci/affected/selection.py:159-221 | everything, nothing, or the least set over the packages the changed files touch by the stated rules |
| Selection.EffectIsRules | ci/affected/selection.py:184-211 | what one changed file does, by rules on its path: wide files, owners, readers, libraries, stray Rust files |
| Selection.OwnerIs | ci/affected/selection.py:189-196 | the owner found is the first package with the deepest covering directory, the root only for its own sources |
| Selection.StrayRustSelectsAll | ci/affected/selection.py:203-211 | a changed Rust file no package owns or reads selects everything |
| Selection.AnchorSelectsAll | ci/affected/selection.py:197-200 | a change to a feature-anchor package selects everything |
| Selection.OwnerOrReadersSelected | ci/affected/selection.py:189-207 | unless everything is selected, the owner of a changed file is, and without an owner every reader |
| Selection.VerdictIgnoresOrder | ci/affected/selection.py:183-221 | the verdict depends only on which files changed |
| Selection.VerdictMonotone | ci/affected/selection.py:183-221 | more changed files never select less |
| Selection.OwnerIsDeepest | ci/affected/selection.py:164-190 | the owner is the first package among those with the longest covering directory |
| Selection.SameDirectory | ci/affected/selection.py:189-190 | covering directories of one length are one directory unless one is the root |
| Selection.NestedOverRoot | ci/affected/selection.py:164-190 | a nested package owns its file over the root exactly when its directory is longer than one letter or listed first |
| Selection.OneLetterDirectory | ci/affected/selection.py:159-221 | a changed file of a package that selects nothing when the root package is listed first, and the package when it is not |

## Left out

- Error message text and the position a syntax error reports: errors are compared by kind and by what was expected.
- The Unicode case table: lowercase is any function with the stated laws. SHA-256, ELF and CMS parsing likewise stay abstract.
- JSON beyond string quoting, and the shape checks of decoded documents: documents are taken as typed values.
- The version label of a component and the format pattern of a generation name: plain pattern checks on one string.
- Selection.Select: takes every package the read map names to be a workspace member, as the scan that builds it guarantees; `scan_reads` itself and the printing of the package list are not modelled.
- Prune.Protected: canonicalising a path and reading a process are parameters; `writable_tree`, the `(deleted)` suffix of an executable and names that are not UTF-8 are not modelled.
- Prune.Host.Run: the directory is changed by this run only, as the install lock arranges, and a missing releases directory is an empty one.
- Repair.Host.Run: different path texts are different files; hard links, directory symlinks and loss of a rename at power failure are not modelled.
- HomePass.Store.Pass: no other writer changes the records between its read and its writes, and reads do not fail; `rebind`, provisions and replicas are not modelled.
- Accounts.Authorize: grant selectors and provisioners are parameters, as is the order in which grants are listed.
- Sockets, SSH, Docker, git, HTTP, the daemon's loops, the terminal interface and the other crates: orchestration around services that cannot be seen here.

# csprojtool relocation and solution-tree model

A Dafny model of the decision logic of `csprojtool`, a tool that moves C#
project files (`.csproj`) while keeping every reference to them intact, and
that folds a set of discovered projects into the nested folder tree of a
Visual Studio solution.

Two engines are modelled:

- **The relocation engine** (`csprojtool/src/move_command.rs`). Resolving
  the moved project and its destination, the refusal of an existing
  destination directory and of nested projects, the two `git mv` commands,
  the inbound fixup of every `ProjectReference/@Include` in the other
  projects, the outbound rewrite of out-of-tree relative paths in the moved
  project, and the `RootNamespace`/`AssemblyName` backfill.
- **The solution-tree builder** (`csprojtool/src/sln.rs`,
  `create_solution`). Each project's path components are folded into nested
  directory nodes that end in a project leaf.

Paths are sequences of components. An absolute path lists its components
after the root. The filesystem is a set of existing paths. Project documents
are XML trees (`Xml.Node`) kept in a map from path to document. Version
control is a log of `git mv`/`git add` commands (`Relocation.GitOp`). The
panics the model covers become an `Err` carrying the reason: an unusable
source, an existing destination directory, nested projects, and a project
file that cannot be read. The other panics are listed under "Left out".

Modules: `Wrappers` (Option/Result), `Paths` (lexical path arithmetic),
`Xml`, `OutOfTree` (the out-of-tree heuristic and the value rewrite),
`Identity` (the backfill), `References` (inbound fixup of one document),
`Outbound` (the visit of the moved document), `Relocation` (`execute`) and
`Solution` (`create_solution`).

## Behaviour kept from the code

Where the code and its apparent intent differ, the model follows the code:

- The backfilled `RootNamespace` and `AssemblyName` use the stem of the *old*
  file name (move_command.rs:240), not the new one.
  `Relocation.Execute` states this.
- `has_assembly_name` is computed from the `RootNamespace` search
  (move_command.rs:343). `AssemblyName` is therefore appended exactly when
  `RootNamespace` is, and a project with a `RootNamespace` but no
  `AssemblyName` gets neither (`Identity.AssemblyNameNotBackfilledBesideRootNamespace`).
- `try_rewrite_relative_path` returns true whenever the heuristic fires,
  whether or not the value changed (move_command.rs:282). A moved document
  is therefore written back and staged when any value the visit reaches
  contains `../` or `..\`. The visit reaches text nodes and the attribute
  values of elements not named `Project`. It does not reach the attributes
  of a `Project` element (move_command.rs:239-242), comments, CDATA or
  processing instructions (move_command.rs:252), so `../` there sets no
  flag (`Outbound.Visit`).
- The attributes of a `Project` element are never rewritten
  (move_command.rs:238-247). This applies to every element named `Project`,
  wherever it sits in the tree.
- A destination directory that is not a `.csproj` path gets a project file
  named after that directory (move_command.rs:105-110), not after the
  moved file.
- In the solution tree, the final component is inserted unconditionally
  (sln.rs:79-84). A project whose path names an already-built directory
  replaces that directory and its whole subtree, so that collision is not
  detected. Only the opposite order, a project used as a directory, is fatal
  (`Solution.DirectoryThenProjectOverwrites`, `Solution.ProjectThenDirectoryFails`).
- A project file that cannot be read panics at the `unwrap()` of
  move_command.rs:222 or 266. By then both `git mv` commands have run, and
  the referencing projects processed before it are written and staged. The
  model returns the error together with the workspace reached at that point
  (`Relocation.Execute`). The refusals before the first `git mv` return the
  workspace unchanged.
- The `git` commands are run with `output()`, so a non-zero exit status of
  `git` is not an error. The model records each command in the log and
  applies its effect; see "Left out".

## Model

| member | source | states |
|---|---|---|
| `Paths.SplitJoin` | csprojtool/src/move_command.rs:201-208 | a path written out as a string with `/` between non-empty, separator-free components splits back into the same components |
| `Paths.Simplify` | csprojtool/src/move_command.rs:98-100 | lexical simplification yields a path with no empty or `.` component, where `..` appears only in a leading run |
| `Paths.AbsSimplify` | csprojtool/src/move_command.rs:195-198 | simplifying an absolute path whose components have no separator yields a canonical path (no `.`, `..` or empty component) |
| `Paths.RelativePathResolves` | csprojtool/src/move_command.rs:195-201 | for canonical `base` and `target`, joining `relative_path(base, target)` onto `base` and simplifying gives `target` back |
| `Paths.RelativePathJoinable` | csprojtool/src/move_command.rs:286-295 | every component of a relative path to a canonical target is `..` or a target component, so it survives writing out and reading back |
| `Paths.Resolve` | csprojtool/src/move_command.rs:195-198 | a value joined onto a base directory and simplified is canonical; a value with a leading separator replaces the base instead of extending it |
| `Paths.ResolveRelative` | csprojtool/src/move_command.rs:195-201 | for canonical `base` and `target`, resolving the written-out `relative_path(base, target)` from `base` gives `target` |
| `Paths.ResolveRooted` | csprojtool/src/move_command.rs:195-198 | resolving the written-out absolute path of a canonical `target` gives `target`, whatever the base |
| `Paths.StemAndExtension` | csprojtool/src/move_command.rs:240 | a file name with an extension is its stem, a dot and that extension |
| `Paths.CsprojName` | csprojtool/src/move_command.rs:105-109 | `<name>.csproj` has the `csproj` extension and the stem `<name>` |
| `OutOfTree.LooksOutOfTreeIff` | csprojtool/src/move_command.rs:304-309 | the heuristic is true iff `..` followed by `/` or `\` occurs at some position of the string |
| `OutOfTree.LooksOutOfTreeMisfires` | csprojtool/src/move_command.rs:304-309 | the heuristic fires on `v1../x`, where `..` is not a component, and not on a bare `..` |
| `OutOfTree.TryRewriteRelativePath` | csprojtool/src/move_command.rs:277-302 | the flag is true iff the value looks out of tree; the value is unchanged unless it looks out of tree, is not rooted, and its resolution from the old directory exists |
| `OutOfTree.RewriteKeepsTarget` | csprojtool/src/move_command.rs:283-296 | when the value is rewritten, resolving the result from the new directory gives the path the old value resolved to from the old directory |
| `Identity.ScanFrom` | csprojtool/src/move_command.rs:312-326 | the fold finds `RootNamespace` (resp. `AssemblyName`) iff some `PropertyGroup` child has a child element of that name |
| `Identity.FirstPropertyGroup` | csprojtool/src/move_command.rs:346 | returns the index of the first `PropertyGroup` child, or none when there is none |
| `Identity.EnsureRootNamespaceAndAssemblyName` | csprojtool/src/move_command.rs:311-365 | with no `PropertyGroup` nothing changes and the result is false; otherwise `RootNamespace(name)` then `AssemblyName(name)` are appended to the first `PropertyGroup` iff no `PropertyGroup` has `RootNamespace`, existing children and every other child are kept, and the result says whether anything was appended |
| `Identity.BackfillIdempotent` | csprojtool/src/move_command.rs:311-365 | a second backfill after a first one changes nothing and returns false |
| `Identity.AssemblyNameNotBackfilledBesideRootNamespace` | csprojtool/src/move_command.rs:342-343 | a project with a `RootNamespace` but no `AssemblyName` is left unchanged, because line 343 tests `root_namespace` |
| `References.FixReferences` | csprojtool/src/move_command.rs:192-214 | every `ProjectReference/@Include` that resolves from the project's directory to the old file (a rooted `Include` resolving on its own) is replaced by the relative path to the new file, all other `Include`s and everything else in the tree stay as they were, and the flag is true iff some `Include` resolved to the old file |
| `References.FixAll` | csprojtool/src/move_command.rs:192-214 | the same, for a sequence of sibling subtrees visited in order |
| `References.RetargetedReferencesResolveToNewFile` | csprojtool/src/move_command.rs:195-209 | an `Include` that resolved to the old file resolves to the new file after the fixup |
| `References.FixReferencesSettles` | csprojtool/src/move_command.rs:183-221 | when the file really moves, a fixed document has nothing left to fix |
| `Outbound.RewriteAttrs` | csprojtool/src/move_command.rs:244-246 | every attribute value goes through the rewrite, with the same keys; the flag is true iff some value looks out of tree |
| `Outbound.VisitElement` | csprojtool/src/move_command.rs:237-248 | a `Project` element gets the backfill and keeps its attributes; any other element gets its attributes rewritten and keeps its children |
| `Outbound.BackfillProjects` | csprojtool/src/move_command.rs:238-241 | afterwards every `Project` element, at any depth, has a `RootNamespace` or no `PropertyGroup` (the result is settled); the node's own name and attributes are kept, and so are the names of its children index by index; the attributes of every `Project` element at any depth are kept; a non-element is unchanged, and an already settled tree is unchanged; the exact appended content is stated only through `BackfillProjectRoot` |
| `Outbound.BackfillProjectRoot` | csprojtool/src/move_command.rs:238-241 | for a document whose root is its only `Project` element, the backfill is exactly one `ensure_root_namespace_and_assembly_name` of the root |
| `Outbound.BackfillProjectsAll` | csprojtool/src/move_command.rs:238-241 | for a sequence of siblings: all of the results are settled, they have the same names index by index, and so do the children of each element; the attributes of every `Project` element are kept, and an already settled sequence is unchanged |
| `Outbound.RewriteValues` | csprojtool/src/move_command.rs:242-250 | the tree keeps its shape: blanking every visited value gives the same tree before and after; the text nodes, in document order, are each the rewrite of the old one; the attribute maps of non-`Project` elements, in document order, have the same keys and each value is the rewrite of the old one; the attributes of every `Project` element are kept |
| `Outbound.RewriteValuesAll` | csprojtool/src/move_command.rs:242-250 | the same, for a sequence of sibling nodes |
| `Outbound.Visit` | csprojtool/src/move_command.rs:234-264 | the one-pass pre-order visit gives the backfill of every `Project` element followed by the rewrite of every visited value (so the result's content is described by `BackfillProjects` and `RewriteValues`); the flag is set iff some visited value looks out of tree or some `Project` element lacks a `RootNamespace` while it has a `PropertyGroup`; with the flag clear the document is returned unchanged; the attributes of every `Project` element, at any depth, are kept |
| `Outbound.VisitAll` | csprojtool/src/move_command.rs:237-253 | the same, for a sequence of sibling nodes |
| `Outbound.VisitSettles` | csprojtool/src/move_command.rs:234-253 | after the visit every `Project` element has a `RootNamespace` or no `PropertyGroup` |
| `Outbound.VisitProjectRoot` | csprojtool/src/move_command.rs:234-253 | for a document whose root is its only `Project` element, the visit is the root's backfill followed by the rewrite of every visited value |
| `Outbound.QuietDocumentIsNotRewritten` | csprojtool/src/move_command.rs:255-264 | a document with no out-of-tree value and an identity already present is neither changed nor written back |
| `Relocation.ResolveSource` | csprojtool/src/move_command.rs:65-90 | a file is the project and its parent the directory; a directory must hold exactly one project, and more than one or none is an error; anything else is an error |
| `Relocation.NewTarget` | csprojtool/src/move_command.rs:98-100 | the destination joined onto the canonical working directory and simplified is canonical |
| `Relocation.NewTargetRelative` | csprojtool/src/move_command.rs:98-100 | a destination written relative to the working directory, as `relative_path` would write it, names that target |
| `Relocation.NewTargetRooted` | csprojtool/src/move_command.rs:98-100 | an absolute destination names its own canonical path, whatever the working directory |
| `Relocation.Destination` | csprojtool/src/move_command.rs:96-112 | a `.csproj` target is the new file and its parent the new directory; any other target is the new directory, and the new file inside it is named after that directory with the `csproj` extension; in both cases the new file's parent is the new directory |
| `Relocation.NestedProjects` | csprojtool/src/move_command.rs:151-161 | lists exactly the discovered paths other than the old file that have the old directory as a component prefix |
| `Relocation.MovePath` | csprojtool/src/move_command.rs:164-167 | a path under the moved directory moves under the destination with the same remainder; any other path stays |
| `Relocation.InboundStagedMembers` | csprojtool/src/move_command.rs:216-229 | a referencing project is written and staged iff it is not the moved project and one of its references resolved to the old file |
| `Relocation.Processed` | csprojtool/src/move_command.rs:183-222 | the number of projects the inbound loop gets through: every project before it is the moved one or readable, and the one at that index, if any, is another project without a document |
| `Relocation.FixInbound` | csprojtool/src/move_command.rs:183-230 | the loop fails iff some other discovered project has no readable document, and the error names the first one; the projects before it (all of them when there is no failure) have their documents fixed, the moved project and all other files stay untouched, and the staged list is the edited ones among them in discovery order |
| `Relocation.Relocate` | csprojtool/src/move_command.rs:163-273 | after the refusals: both moves are applied to the filesystem and logged; the inbound loop runs up to the first unreadable project, whose error is returned with the documents and `add`s made before it; when every project is readable, the moved document sits at the new file after the outbound visit with the old file's stem and is staged iff it was not quiet; a missing moved document is an error on the new file |
| `Relocation.Execute` | csprojtool/src/move_command.rs:62-274 | an unresolvable source or destination, an existing destination directory, or nested projects return the error with the workspace unchanged; otherwise the new file is canonical and the outcome is the one of `Relocate`; in particular the command succeeds iff the moved project and every other discovered project have a document |
| `Relocation.MovedProjectGetsIdentity` | csprojtool/src/move_command.rs:232-266 | after a successful move the document at the new file is settled; when its root is its only `Project` element, it is the old document with `RootNamespace`/`AssemblyName` backfilled from the old file's stem and every visited value rewritten |
| `Relocation.MoveKeepsReferences` | csprojtool/src/move_command.rs:194-209 | after the move, every reference in another project that named the old file names the new file |
| `Solution.InsertNormal` | csprojtool/src/sln.rs:57-85 | a path of normal components is inserted iff no non-empty proper prefix of it is a project, the only failure being "project used as directory"; after insertion every proper prefix is a directory and the path itself holds the project's guid |
| `Solution.ProjectOnPrefixStep` | csprojtool/src/sln.rs:70-77 | a project lies on a non-empty prefix of a path iff the first name is a project, or a directory with a project on a prefix of the rest |
| `Solution.InsertRejectsComponent` | csprojtool/src/sln.rs:61-67 | the first non-normal component, when no project lies on any prefix of the path before it, aborts: `..` as outside the solution directory, anything else as unexpected |
| `Solution.InsertFrame` | csprojtool/src/sln.rs:59-86 | every path that parts from the inserted one leads to what it led to before, so siblings and the contents of kept directories are unchanged |
| `Solution.InsertProject` | csprojtool/src/sln.rs:57-86 | the cursor loop over the components computes exactly the specified insertion, errors included |
| `Solution.CreateSolution` | csprojtool/src/sln.rs:42-90 | the loop over projects computes the left fold of the insertions, and no projects give the empty root |
| `Solution.BuildStaysFailed` | csprojtool/src/sln.rs:48-87 | once a project aborts, the whole fold fails with that error |
| `Solution.LastProjectLands` | csprojtool/src/sln.rs:79-84 | after a successful fold, the last project's path holds its guid |
| `Solution.DirectoryThenProjectOverwrites` | csprojtool/src/sln.rs:79-84 | `src/Foo/Foo.csproj` followed by `src/Foo` succeeds, and `src/Foo` replaces the directory and its contents |
| `Solution.ProjectThenDirectoryFails` | csprojtool/src/sln.rs:70-77 | `src/Foo` followed by `src/Foo/Foo.csproj` aborts with "project used as directory" |

## Left out

- Argument parsing (`subcommand`, `try_from_matches`, `from_matches`) and all logging: they carry no logic.
- `canonicalize`, `metadata` and `current_dir`. The source's kind (file, directory, neither), the canonical source path, the canonical working directory and the set of existing paths are inputs. The I/O error other than "not found" on the destination check (move_command.rs:120) is not modelled.
- Project discovery (the `ignore`/`globset` walk, `find_git_root`, `find_dir_csproj`, `crate::list::list`) is filesystem traversal. Its results are inputs: the discovered paths, which are canonical and each found once, and the project files directly inside a source directory.
- Outbound.BackfillProjects: for a `Project` element nested below another one, only settledness and the kept names and `Project` attributes are stated, not the stem used or the content appended; the exact backfill is stated for a document whose root is its only `Project` element (`Outbound.BackfillProjectRoot`), which is the form of an MSBuild project file.
- Outbound.BackfillProjectsAll: the same limit, for sequences of siblings.
- Failures that are not a missing document are not modelled: writing a project file back (the `unwrap()` of move_command.rs:222 and 266), a path that is not valid UTF-8 (the `to_str().unwrap()` of move_command.rs:208, 240 and 295, and of sln.rs:65), and a `git` command that cannot be started (the `expect`s of lines 167, 179, 228 and 272).
- `git` subprocesses are modelled as log entries plus their effect on the set of existing paths. A failure of `git` is not modelled; the code ignores `git`'s exit status. Only the moved project's document is re-keyed by the move. Other files under the moved directory move in the set of existing paths, but their documents, which the fixups never read, keep their old keys.
- XML parsing and serialisation (`transform_xml_file`). A document that cannot be read is an `Unreadable` error. Comments, CDATA and processing instructions are one node kind that no visitor changes. Attribute order is not modelled (attributes are a map), which is sound because every attribute is rewritten independently.
- Writing nodes in place through `&mut` is modelled as visitors that return the rewritten tree and the flag. In `create_solution`, the re-borrowed cursor is modelled as a descent that keeps a stack of parent directories and rebuilds them at the end.
- `simplify`, `simplified_absolute` and `relative_path` are specified on component sequences, not transcribed. Stored values follow Windows separator rules on every platform: `\` separates components as `/` does, and a value starting with either counts as rooted (on Unix only `/` does). Windows drive prefixes are not modelled. Written paths use `/` as separator; the code writes the platform separator.
- `sln()`, `SolutionFile::write` and the `file`/`types` modules are output formatting and I/O. The relativisation of each project path against the solution directory is an input: the component lists.
- Solution directory nodes are maps, so the order of children is not modelled.

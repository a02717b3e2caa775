# FileStructure-Findner: directory tree builder and renderer

FileStructure-Findner is a small web application. It lists every file path of
a GitHub repository and shows the paths as an indented text tree, the way the
`tree` command does. Its core is two functions in `app.py`:

- `build_tree(paths)` cuts each path at `/` and walks down a nested,
  insertion-ordered mapping, creating each missing segment as an empty mapping.
- `format_tree(d, prefix)` renders the mapping depth first, one line per node.
  - Each line is the prefix, a connector and the node's name.
  - The connector is `└── ` for the last child and `├── ` for any other child.
  - Before descending into a child that has children, it extends the prefix:
    by four spaces after a last child, by `│   ` otherwise.

The Dafny project models these two functions and `str.split("/")`. It has
four modules:

- `PathSegments` (`segments.dfy`): Python's `split("/")` as `Split`, with
  `Join` as its inverse.
- `TreeBuilder` (`builder.dfy`): the tree as a value. A `Node` holds an
  insertion-ordered list of named entries, which stands for one
  `defaultdict`. The module has:
  - `FindOrCreate`, the lookup `current[part]` (app.py:31);
  - `Insert`, the walk down one path (app.py:28-31);
  - `Extend` and `Build`, the specification of the whole function
    (app.py:24-32);
  - the method `BuildTree`, whose loop over the paths is proved to compute
    `Build`.
- `TreeRenderer` (`renderer.dfy`): the specification function
  `Format`/`FormatFrom` (app.py:34-45), the choice of connector and of
  extension as `Connector` (app.py:39) and `Extension` (app.py:43), and the
  method `FormatTree`. `FormatTree` keeps the
  loop of `format_tree` over the keys and its recursive call, and is proved to
  compute `Format`.
- `Pipeline` (`pipeline.dfy`): `Render(paths) = Format(Build(paths), "")`
  (app.py:54-55), the composition used by the `/` and `/download` routes. It also holds
  properties of the whole pipeline and worked examples.

## Model

| member | source | states |
|---|---|---|
| PathSegments.Split | app.py:28 | cutting a path always gives at least one segment, and no segment contains `/` |
| PathSegments.JoinSplit | app.py:28 | joining the segments with `/` gives the path back, so no character is lost or added |
| PathSegments.SplitJoin | app.py:28 | cutting a `/`-joined list of segments gives the list back, empty segments included |
| PathSegments.SplitSegment | app.py:28 | a name without `/` is a single segment |
| TreeBuilder.IndexOf | app.py:31 | the position of a key among a node's keys is below the count exactly when the key is there; it is the key's first occurrence |
| TreeBuilder.FindOrCreate | app.py:31 | `current[part]` yields the child named `part`; an existing key leaves the node unchanged; a missing key is appended, empty, after all existing keys |
| TreeBuilder.BuildTree | app.py:24-32 | the loop over the paths builds exactly `Build(paths)`, and no mapping in the result has a repeated key |
| TreeBuilder.BuildEmpty | app.py:25-26 | no paths give a root with no children |
| TreeBuilder.InsertHasPath | app.py:28-31 | after inserting a path, the chains present are the ones present before plus every prefix of the path's segments, and nothing else |
| TreeBuilder.InsertPresent | app.py:29-31 | inserting a path that is already present leaves the tree unchanged |
| TreeBuilder.InsertWellFormed | app.py:31 | inserting keeps every node's keys pairwise distinct |
| TreeBuilder.InsertChildNames | app.py:31 | at the node a path passes through, the path's next segment joins the children only if it is new, after the existing ones; every other node keeps its children and their order |
| TreeBuilder.ExtendWellFormed | app.py:27-31 | inserting any list of paths keeps every node's keys pairwise distinct |
| TreeBuilder.ExtendHasPath | app.py:27-31 | the chains present after inserting a list of paths are the earlier ones plus the prefixes of every listed path's segments |
| TreeBuilder.BuildHasPath | app.py:24-32 | a chain of names is in the built tree exactly when it is empty or a prefix of some input path's segments |
| TreeBuilder.BuildContains | app.py:27-31 | every input path is present, segment by segment, in the built tree |
| TreeBuilder.ExtendPresent | app.py:27-31 | inserting paths that are all present changes nothing |
| TreeBuilder.ExtendAppend | app.py:27 | processing `a + b` is processing `a`, then `b` from the resulting tree |
| TreeBuilder.BuildTwice | app.py:24-32 | listing every path twice builds the same tree as listing it once |
| TreeBuilder.RebuildPresent | app.py:27-31 | a path repeated at the end of the list does not change the tree |
| TreeBuilder.BuildChildOrder | app.py:27-31 | the children of every node are the names that follow it in the input, with repeats removed |
| TreeBuilder.DedupSound | app.py:31 | the children named by `BuildChildOrder` are exactly the names that follow the node, each once |
| TreeBuilder.DedupOrder | app.py:31 | those children are ordered by where each name first appears in the input |
| TreeBuilder.NotRepeatedLater | app.py:31 | in a well-formed node, no later sibling repeats a child's key |
| TreeRenderer.FormatTree | app.py:34-45 | the loop with its recursive call produces exactly `Format(d, prefix)` |
| TreeRenderer.FormatLength | app.py:37-44 | the rendering has exactly one line per node below the root |
| TreeRenderer.FormatPrefix | app.py:40 | every line of `format_tree(d, prefix)` starts with `prefix` |
| TreeRenderer.FormatSuffix | app.py:37-44 | the lines from the `i`-th child on form the tail of the rendering that starts at that child's offset |
| TreeRenderer.FormatBlock | app.py:37-44 | the `i`-th child's block starts at its offset with its own line (prefix, closing connector exactly when it is the last child, name), followed contiguously by its descendants rendered under the prefix extended by blank space or a bar; the next sibling's block starts right after (details below) |
| TreeRenderer.FormatCovers | app.py:37-45 | the children's blocks together cover the whole rendering, with nothing after them |
| TreeRenderer.FormatEmpty | app.py:35-37 | a node without children renders as no lines |
| TreeRenderer.ConnectorsDiffer | app.py:39-43 | the last-child and other-child connectors differ, and every connector and extension is four characters wide |
| Pipeline.PathsFromCard | app.py:37-44 | in a well-formed tree, the number of distinct chains of names equals the number of nodes below the root |
| Pipeline.PathsFromMember | app.py:37-44 | a chain is collected from the `i`-th child on exactly when it is present and starts at that child or a later one |
| Pipeline.BuildChains | app.py:54-55 | the chains of the built tree are exactly the non-empty prefixes of the input paths' segments |
| Pipeline.LinesPerNode | app.py:54-55 | the rendered tree has one line per distinct non-empty prefix of the input paths' segments |
| Pipeline.RenderTwice | app.py:54-55 | repeating the path list does not change the rendered lines |
| Pipeline.RenderNothing | app.py:54-55 | an empty repository renders as no lines |
| Pipeline.SplitExamples | app.py:28 | `""` cuts to `[""]`, `"a//b"` to `["a", "", "b"]`, `"/"` to `["", ""]` |
| Pipeline.RenderOne | app.py:54-55 | a single file at the top level renders as one line: the closing connector, then its name |
| Pipeline.RenderOneFile | app.py:54-55 | `["a.txt"]` renders as `└── a.txt` |
| Pipeline.RenderDirThenFile | app.py:54-55 | a directory holding one file, then a top-level file: the directory has the branching connector, and its file is indented under a vertical bar |
| Pipeline.RenderNested | app.py:54-55 | `["x/y.txt", "z.txt"]` renders as `├── x`, `│   └── y.txt`, `└── z.txt` |
| Pipeline.RenderDirThenContent | app.py:54-55 | a path, then a path below it, merge into one chain: the parent is the last child and the descendant is indented by blank space |
| Pipeline.RenderMerged | app.py:54-55 | `["a", "a/b"]` renders as `└── a`, `    └── b` |
| Pipeline.RenderTwoInDir | app.py:54-55 | two files under one directory are listed in input order under it, and only the second has the closing connector |
| Pipeline.RenderSiblings | app.py:54-55 | `["src/a.py", "src/b.py"]` renders as `└── src`, `    ├── a.py`, `    └── b.py` |

`TreeRenderer.FormatBlock` states three things about the `i`-th child's block:

- It starts at `Offset(n, i)`, and its own line comes first: the prefix, the
  closing connector exactly when the child is the last one (the branching
  connector otherwise), and the child's name.
- The child's descendants follow contiguously, rendered under the prefix
  extended by blank space (for a last child) or by a vertical bar (for any
  other child). A leaf has no descendants' lines.
- The next sibling's block starts directly after.

## Left out

- `get_repo_structure` (app.py:10-22) is not modelled. It parses a URL,
  makes an HTTP request to the GitHub API and decodes JSON. Here the list of
  paths is a parameter.
- The Flask routes `index` and `download` (app.py:47-97) are not modelled.
  They handle forms, templates, the Word document built with python-docx, and
  the in-memory file download. Only their `format_tree(build_tree(...))`
  composition is modelled, as `Pipeline.Render`. The error reporting around
  it is not.
- The application object (app.py:8) and `app.run` (app.py:100-101) are not modelled. They are start-up,
  not logic.
- TreeBuilder.BuildTree: the cursor `current` mutates nested dictionaries in
  place, through aliases into the root. The model walks a path with a pure,
  path-copying `Insert`, which returns the updated tree. The inner loop over
  the segments is part of `Insert` rather than a second `while` loop. The
  resulting tree is the same, but sharing and in-place update are not
  modelled.
- The self-referential `defaultdict` factory is modelled only by its effect.
  Reading a missing key creates an empty node (`FindOrCreate`).
  `format_tree` reads only keys that exist, so its lookups create nothing.
- Strings are sequences of Unicode scalar values. A Python `str` may also
  hold lone surrogates (U+D800 to U+DFFF), for instance from a `\ud800`
  escape in the decoded JSON; the model excludes them. How the lines are
  encoded or displayed (HTML, docx) is not modelled.
- TreeRenderer.FormatTree: `format_tree` calls itself once per level of the
  tree (app.py:44), so a path nested deeper than Python's recursion limit
  (1000 frames by default, some already taken by Flask) raises
  `RecursionError`, and the routes show the error page instead of the tree
  (app.py:63-65, app.py:96-97). The model has no depth limit and always
  returns the lines; neither the limit nor that error page is modelled.
- The trees are finite values, so the unbounded nesting that the recursive
  `defaultdict` allows is reached only through finite path lists. That is the
  only way the source builds them.

/** `createAllStories`: from the paths the visit of the project's `lib`
    directory yields, in visit order, to the `component-story` runs it
    chains, one per component file. */
module Stories {
  import opened Strings

  /** `schematic('component-story', { componentPath, project })` */
  datatype Invocation = ComponentStoryRun(componentPath: string, project: string)

  /** The visit callback's test: a `.tsx` file that is not a `.spec.tsx`. */
  predicate IsComponentFile(path: string) {
    EndsWith(path, ".tsx") && !EndsWith(path, ".spec.tsx")
  }

  /** A `.` or `..` segment starts at index `i` of `path`. */
  predicate DotSegmentAt(path: string, i: int) {
    && 0 <= i < |path|
    && (i == 0 || path[i - 1] == '/')
    && path[i] == '.'
    && (i + 1 == |path| || path[i + 1] == '/'
        || (path[i + 1] == '.' && (i + 2 == |path| || path[i + 2] == '/')))
  }

  /** A path as the workspace configuration and `path.join` produce it:
      no leading or trailing `/`, no empty segment, and no `.` or `..`
      segment. */
  predicate Normalized(path: string) {
    && (|path| > 0 ==> path[0] != '/' && path[|path| - 1] != '/')
    && (forall i :: 0 <= i < |path| ==> !OccursAt(path, "//", i))
    && forall i :: 0 <= i < |path| ==> !DotSegmentAt(path, i)
  }

  /** `join('/', projectSrcRoot, '/')` for a normalised source root. */
  function SourceRootPrefix(root: string): (prefix: string)
    requires Normalized(root)
    ensures StartsWith(prefix, "/") && EndsWith(prefix, "/")
    ensures root != "" ==> |prefix| == |root| + 2 && prefix[1..|prefix| - 1] == root
    ensures root == "" ==> prefix == "/"
  {
    if root == "" then "/" else "/" + root + "/"
  }

  /** `componentPath.replace(join('/', projectSrcRoot, '/'), '')` */
  function RelativeComponentPath(path: string, root: string): (relative: string)
    requires Normalized(root)
    ensures StartsWith(path, SourceRootPrefix(root)) ==> relative == path[|SourceRootPrefix(root)|..]
  {
    RemoveFirstOfPrefix(path, SourceRootPrefix(root));
    RemoveFirst(path, SourceRootPrefix(root))
  }

  /** `normalize(join(sourceRoot, componentPath))`, the path the
      `component-story` run reads, for normalised operands. */
  function JoinNormalized(root: string, relative: string): (joined: string)
    requires Normalized(root) && Normalized(relative)
    ensures StartsWith(joined, root) && EndsWith(joined, relative)
    ensures root != "" && relative != "" ==> |joined| == |root| + 1 + |relative| && joined[|root|] == '/'
    ensures relative == "" ==> joined == root
    ensures root == "" ==> joined == relative
  {
    if root == "" then relative
    else if relative == "" then root
    else root + "/" + relative
  }

  /** The visited paths the filter keeps, in visit order. */
  function SelectComponentFiles(visited: seq<string>): (selected: seq<string>)
    ensures |selected| <= |visited|
    ensures forall p :: p in selected <==> p in visited && IsComponentFile(p)
    decreases |visited|
  {
    if |visited| == 0 then []
    else
      (if IsComponentFile(visited[0]) then [visited[0]] else []) + SelectComponentFiles(visited[1..])
  }

  /** The `visit` callback of `createAllStories` pushes every component file, in the
      order the visit yields them. */
  method CollectComponentPaths(visited: seq<string>) returns (componentPaths: seq<string>)
    ensures componentPaths == SelectComponentFiles(visited)
  {
    componentPaths := [];
    var k := 0;
    while k < |visited|
      invariant 0 <= k <= |visited|
      invariant componentPaths == SelectComponentFiles(visited[..k])
    {
      SelectDistributes(visited[..k], [visited[k]]);
      assert visited[..k + 1] == visited[..k] + [visited[k]];
      if IsComponentFile(visited[k]) {
        componentPaths := componentPaths + [visited[k]];
      }
      k := k + 1;
    }
    assert visited[..k] == visited;
  }

  /** `componentPaths.map(...)` in `createAllStories`: one `component-story`
      run per collected path, in order, on the path with the first
      occurrence of `prefix` removed. */
  method RunsFor(componentPaths: seq<string>, prefix: string, projectName: string)
    returns (invocations: seq<Invocation>)
    ensures |invocations| == |componentPaths|
    ensures forall i :: 0 <= i < |componentPaths| ==>
              invocations[i] == ComponentStoryRun(RemoveFirst(componentPaths[i], prefix), projectName)
  {
    invocations := [];
    var m := 0;
    while m < |componentPaths|
      invariant 0 <= m <= |componentPaths|
      invariant |invocations| == m
      invariant forall i :: 0 <= i < m ==>
                  invocations[i] == ComponentStoryRun(RemoveFirst(componentPaths[i], prefix), projectName)
    {
      invocations := invocations + [ComponentStoryRun(RemoveFirst(componentPaths[m], prefix), projectName)];
      m := m + 1;
    }
  }

  /** `createAllStories`, after the visit: each collected
      component file becomes one `component-story` run on its path relative
      to the source root, for the same project. `generateCypressSpecs` is
      accepted and never read. */
  method CreateAllStories(projectName: string, generateCypressSpecs: bool, sourceRoot: string, visited: seq<string>)
    returns (invocations: seq<Invocation>)
    requires Normalized(sourceRoot)
    ensures |invocations| == |SelectComponentFiles(visited)|
    ensures forall i :: 0 <= i < |invocations| ==>
              invocations[i] == ComponentStoryRun(
                RelativeComponentPath(SelectComponentFiles(visited)[i], sourceRoot), projectName)
  {
    var componentPaths := CollectComponentPaths(visited);
    invocations := RunsFor(componentPaths, SourceRootPrefix(sourceRoot), projectName);
  }

  /** Filtering a concatenation filters each part: the selection keeps
      visit order. */
  lemma {:induction false} SelectDistributes(a: seq<string>, b: seq<string>)
    ensures SelectComponentFiles(a + b) == SelectComponentFiles(a) + SelectComponentFiles(b)
    decreases |a|
  {
    if |a| == 0 {
      assert a + b == b;
    } else {
      assert (a + b)[1..] == a[1..] + b;
      SelectDistributes(a[1..], b);
    }
  }

  /** Every component file is selected as many times as it is visited, and
      nothing else is selected: one run per visited component file. */
  lemma {:induction false} SelectCounts(visited: seq<string>, p: string)
    ensures multiset(SelectComponentFiles(visited))[p] ==
            if IsComponentFile(p) then multiset(visited)[p] else 0
    decreases |visited|
  {
    if |visited| > 0 {
      SelectCounts(visited[1..], p);
      assert visited == [visited[0]] + visited[1..];
    }
  }

  /** An existing story file, `*.stories.tsx`, is selected too. */
  lemma StoryFilesSelected(path: string)
    requires EndsWith(path, ".stories.tsx")
    ensures IsComponentFile(path)
  {
    var n := |path|;
    assert path[n - 4..] == ".tsx";
    assert path[n - 9] == "ories.tsx"[0];
  }

  /** `.ts` and `.js` files are never selected. */
  lemma ScriptFilesNotSelected(path: string)
    requires EndsWith(path, ".ts") || EndsWith(path, ".js")
    ensures !IsComponentFile(path)
  {
    var n := |path|;
    assert path[n - 1] == 's';
  }

  /** A visited path under the source root loses exactly the root prefix. */
  lemma RelativePathStripsRoot(root: string, rest: string)
    requires Normalized(root)
    ensures RelativeComponentPath(SourceRootPrefix(root) + rest, root) == rest
  {
    RemoveFirstOfPrefix(SourceRootPrefix(root) + rest, SourceRootPrefix(root));
  }

  /** Joining a relative path onto the root undoes putting the root
      prefix in front of it, but for the leading `/`. */
  lemma JoinUndoesRootPrefix(root: string, rest: string)
    requires Normalized(root) && Normalized(rest) && rest != ""
    ensures JoinNormalized(root, rest) == (SourceRootPrefix(root) + rest)[1..]
  {
    var visited := SourceRootPrefix(root) + rest;
    if root == "" {
      assert visited[1..] == rest;
    } else {
      assert visited[1..] == root + "/" + rest by {
        assert visited == "/" + (root + "/" + rest);
      }
    }
  }

  /** The `component-story` run reads back the file that was visited, up to
      the leading `/` the tree's visit puts in front. */
  lemma RunReadsVisitedFile(root: string, rest: string)
    requires Normalized(root) && Normalized(rest) && rest != ""
    ensures var visited := SourceRootPrefix(root) + rest;
            JoinNormalized(root, RelativeComponentPath(visited, root)) == visited[1..]
  {
    RelativePathStripsRoot(root, rest);
    JoinUndoesRootPrefix(root, rest);
  }
}

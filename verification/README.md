# Story schematics of `@nrwl/react`: a Dafny model

This project models the two pieces of pure logic inside the React Storybook
schematics of Nx.

- **`component-story`**: from a component file, it infers what the story
  template is rendered with.
  - The story directory and the component file name come from the component's
    path. This uses the first-occurrence semantics of JavaScript's `replace`
    and the negative-index semantics of `slice`.
  - The component declaration is the first variable declaration.
  - The props type name comes from the arrow function's parameter literally
    named `props`.
  - That name is resolved against the interfaces. The first interface with
    that name supplies the props.
  - Each member becomes one prop: its name, a knob type and a default value
    (`getKnobDefaultValue`).
  - The used knobs are the knob types joined by `, `.
  - The component name is the declaration's identifier text. It is
    `undefined` when the declaration is a binding pattern.
  - Every place where the schematic dereferences `undefined` is modelled as a
    `TypeError` result, not as an empty result. These are:
    - a declaration without initializer;
    - no `props` parameter;
    - a `props` parameter without a type reference;
    - a member without a name (an index, call or construct signature);
    - a member without a type.
- **`stories`**: from the file paths the visit of the library directory
  yields, in visit order, it builds the list of `component-story` runs.
  - A path is kept when it ends in `.tsx` but not in `.spec.tsx`.
  - Each kept path is rewritten relative to the source root.
  - Each run carries the project name.

The syntax tree is an input (module `SyntaxTree`). It is the part of the
TypeScript tree the schematic inspects, in document order. Everything is pure
functions over immutable datatypes, except three methods. Two of them have
loops, which carry the invariants.

Modules:

- `Wrappers`: `Option` and `Result`.
- `Strings`: `startsWith`, `endsWith`, `indexOf`, `lastIndexOf`, `slice`, `replace` with the empty string, `join`, and `split` as join's partner.
- `Sequences`: `Array.prototype.find`.
- `SyntaxTree`: the input tree.
- `Knobs`: the two kind tables and `getKnobDefaultValue`.
- `ComponentStory`: the path split and the inference.
- `Stories`: `createAllStories`.

Two branches of the code evidently mean something other than what they do.
The model follows what they do and says what was meant in comments:

1. **The `''` fallback of `getKnobDefaultValue` (`component-story.ts:37-38`).**
   The return of `''` for an unrecognised kind is evidently the intended
   default. But the test `typeof resolvedValue === undefined` compares a
   string with the value `undefined`, so it never holds and the return is
   dead. A member of any other kind gets an `undefined` default and an
   `undefined` knob type.
2. **The JSX test when choosing the component (`component-story.ts:81`).**
   The `find` callback evidently means to pick the first declaration that
   contains a JSX element. But `!!findNodes(...)` is the truthiness of an
   array, which always holds. The first variable declaration is taken,
   whatever it contains.

A `props` parameter that is missing, or has no type reference, makes the
schematic throw at `component-story.ts:103`.

## Model

| member | source | states |
|---|---|---|
| Knobs.TypeOf | packages/react/src/schematics/component-story/component-story.ts:37 | `typeof` gives the string `undefined` exactly for the value `undefined`. A string is never the value `undefined`, so the fallback test fails for every value; `Knobs.KnobDefaultValue` states the consequence. |
| Knobs.KnobDefaultValue | packages/react/src/schematics/component-story/component-story.ts:29-42 | Gives `''` for string, `0` for number and `false` for boolean. The default is `undefined` exactly for any other kind, because the fallback branch is unreachable. The default always agrees with the knob type of the same kind. |
| Knobs.KnobTypeOf | packages/react/src/schematics/component-story/component-story.ts:115-123 | Gives text for string, number for number and boolean for boolean. The knob type is `undefined` exactly for any other kind. `select` is never produced. |
| Knobs.KnobName | packages/react/src/schematics/component-story/component-story.ts:136 | Text, number, boolean and select render as `text`, `number`, `boolean` and `select`. The entry is empty exactly when the knob type is `undefined`, since `join` prints `undefined` as nothing. It never contains a comma. |
| Strings.IndexOf | packages/react/src/schematics/component-story/component-story.ts:55-61 | Gives the first index where the pattern occurs, with no occurrence before it. It is -1 exactly when the pattern occurs nowhere. |
| Strings.LastIndexOf | packages/react/src/schematics/component-story/component-story.ts:56 | Gives the last index holding the character, with none after it. It is -1 exactly when the character is absent. |
| Strings.SliceFrom | packages/react/src/schematics/component-story/component-story.ts:56-60 | The slice is a suffix of the string. A start in range keeps the length minus the start. A negative start keeps that many characters from the end, clamped at the whole string. A start past the end gives the empty string. |
| Strings.RemoveFirst | packages/react/src/schematics/component-story/component-story.ts:55-61 | `replace(pat, '')` leaves the string unchanged when the pattern is absent. Otherwise it removes exactly one copy of the pattern, at its first occurrence, and putting the pattern back there restores the input. |
| Strings.RemoveFirstOfPrefix | packages/react/src/schematics/stories/stories.ts:36-39 | When the pattern starts the string, `replace` strips exactly that prefix. |
| Strings.Join | packages/react/src/schematics/component-story/component-story.ts:136 | `join` of no parts is empty. A join of parts starts with the first part and ends with the last. `Strings.SplitJoin` states the round trip. |
| Strings.SplitJoin | packages/react/src/schematics/component-story/component-story.ts:136 | Splitting the `join` of a non-empty list at a non-empty separator gives back the parts, when no part contains the separator's first character. With no parts the join is `''`, which splits to `['']`. |
| Sequences.FindIndex | packages/react/src/schematics/component-story/component-story.ts:99-101 | `find` gives the first element satisfying the test, with no earlier one satisfying it. It gives `undefined` exactly when no element satisfies the test. |
| ComponentStory.ComponentDirectory | packages/react/src/schematics/component-story/component-story.ts:55-58 | The directory of a non-empty path is strictly shorter than the path: the tail from the last `/` is a non-empty suffix, so it always occurs and is removed. The lemmas below pin the result down. |
| ComponentStory.ComponentFileName | packages/react/src/schematics/component-story/component-story.ts:59-61 | The file name never contains `/` and is no longer than the path. The lemmas below pin the result down. |
| ComponentStory.LastSlashEndsDirectory | packages/react/src/schematics/component-story/component-story.ts:56 | In a path made of a directory ending in `/` followed by a slash-free name, the last `/` is the directory's own. |
| ComponentStory.FileNameIsLastSegment | packages/react/src/schematics/component-story/component-story.ts:59-61 | The file name is the text after the last `/`, with its first `.tsx` removed. |
| ComponentStory.FileNameDropsExtension | packages/react/src/schematics/component-story/component-story.ts:59-61 | When `.tsx` occurs in the last segment only as its ending, the file name is the segment without it. |
| ComponentStory.TailAfterLastSlash | packages/react/src/schematics/component-story/component-story.ts:56 | The slice taken at the last `/` of `dir/base` is `/base`. |
| ComponentStory.DirectoryDropsLastSegment | packages/react/src/schematics/component-story/component-story.ts:55-58 | When the tail from the last `/` occurs first at the end, the directory is exactly the text before the last `/`. |
| ComponentStory.DirectoryWithoutSlash | packages/react/src/schematics/component-story/component-story.ts:55-61 | For a path with no `/`, `slice(-1)` makes the directory lose the first copy of its last character. The file name is then the path with its first `.tsx` removed. |
| ComponentStory.PathSplitRoundTrip | packages/react/src/schematics/component-story/component-story.ts:54-61 | Directory, `/`, file name and `.tsx` reassemble the path when neither the tail nor the extension occurs earlier. |
| ComponentStory.DirectoryRemovesEarlierOccurrence | packages/react/src/schematics/component-story/component-story.ts:55-58 | For a slash-free `pre` and `base`, an earlier copy of the tail is what gets removed: the directory of `pre/base` + `mid` + `/base` is `pre` + `mid` + `/base`. |
| ComponentStory.PassesJsxTest | packages/react/src/schematics/component-story/component-story.ts:81 | `!!findNodes(x, JsxElement)` holds for every declaration, because an array is always truthy. `ComponentStory.SelectComponent` and `ComponentStory.OnlyFirstDeclarationMatters` state the consequence. |
| ComponentStory.SelectComponent | packages/react/src/schematics/component-story/component-story.ts:77-88 | A component is found exactly when there is a variable declaration, and it is always the first one. |
| ComponentStory.PropsTypeName | packages/react/src/schematics/component-story/component-story.ts:103-104 | The props type name is read exactly when the annotation is a type reference, and it is that reference's name. Otherwise the access throws. |
| ComponentStory.FindInterface | packages/react/src/schematics/component-story/component-story.ts:106-111 | Gives the first interface with the name, with none earlier. It is absent exactly when no interface has that name. |
| ComponentStory.MapMember | packages/react/src/schematics/component-story/component-story.ts:114-125 | A member maps exactly when it has both a name and a type. Without a name it throws at the name (line 122), before the type is read. With a name but no type it throws at the type (line 123). The prop keeps the member's name, and its knob type and default agree. |
| ComponentStory.MapMembers | packages/react/src/schematics/component-story/component-story.ts:114-126 | `members.map` succeeds exactly when every member has a name and a type. Otherwise it throws what the first such failing member throws. On success there is one prop per member, in order, with the member's name, its kind's knob type and its kind's default. |
| ComponentStory.PropsOf | packages/react/src/schematics/component-story/component-story.ts:90-128 | Every inferred prop's default agrees with its knob type. |
| ComponentStory.CreateComponentStoriesFile | packages/react/src/schematics/component-story/component-story.ts:54-137 | An unreadable file fails with "Failed to read". A success needs at least one declaration. The component name is the first declaration's identifier text, `undefined` for a binding pattern. Every prop's default agrees with its knob. |
| ComponentStory.NoComponentIffNoDeclarations | packages/react/src/schematics/component-story/component-story.ts:77-88 | "Could not find any React component" is raised exactly when the file has no variable declaration. |
| ComponentStory.ComponentIsFirstDeclaration | packages/react/src/schematics/component-story/component-story.ts:77-137 | The first declaration's initializer alone decides the props, and a failure there fails the run. On success the plan carries the directory, file name, props, joined knobs, and the first declaration's name. |
| ComponentStory.OnlyFirstDeclarationMatters | packages/react/src/schematics/component-story/component-story.ts:77-88 | Whether the first declaration contains JSX does not change the outcome, and neither does any later declaration. |
| ComponentStory.KnobNames | packages/react/src/schematics/component-story/component-story.ts:136 | One knob name per prop, and none contains a comma, which is what lets `ComponentStory.UsedKnobsListsEveryProp` split the joined list back. |
| ComponentStory.UsedKnobs | packages/react/src/schematics/component-story/component-story.ts:136 | The joined list is empty without props. Otherwise it starts with the first prop's knob name and ends with the last one's. `ComponentStory.UsedKnobsListsEveryProp` states the full content. |
| ComponentStory.UsedKnobsListsEveryProp | packages/react/src/schematics/component-story/component-story.ts:136 | `usedKnobs` holds one knob name per prop, in order, duplicates kept: splitting it at `, ` gives back each prop's knob name. It is empty when there are no props. |
| ComponentStory.IsPropsParameter | packages/react/src/schematics/component-story/component-story.ts:100 | The `find` callback accepts a parameter exactly when its name is the identifier `props`. `ComponentStory.FirstPropsParameterFound` states which parameter is chosen. |
| ComponentStory.FirstPropsParameterFound | packages/react/src/schematics/component-story/component-story.ts:99-101 | The parameter chosen is the first one literally named `props`. |
| ComponentStory.NonArrowInitializer | packages/react/src/schematics/component-story/component-story.ts:90-98 | An initializer that is not an arrow function leaves `propsTypeName` as `''` and `props` empty. A missing initializer throws. |
| ComponentStory.MissingPropsParameterCrashes | packages/react/src/schematics/component-story/component-story.ts:99-104 | An arrow function without a `props` parameter makes the run throw; it does not give empty props. |
| ComponentStory.UntypedPropsParameterCrashes | packages/react/src/schematics/component-story/component-story.ts:103-104 | A `props` parameter that has no annotation, or has a non-reference one, makes the run throw. |
| ComponentStory.UnresolvedPropsType | packages/react/src/schematics/component-story/component-story.ts:106-113 | When no interface has the props type's name, the props are empty and there is no error. |
| ComponentStory.PropsFollowInterfaceMembers | packages/react/src/schematics/component-story/component-story.ts:106-127 | The first interface with the props type's name supplies one prop per member, in order, names unchanged. The run fails exactly when a member has no name or no type, with the error of the first such member. |
| ComponentStory.StringThenBooleanMembers | packages/react/src/schematics/component-story/component-story.spec.ts:59-103 | A string member then a boolean member give a text knob defaulting to `''` and a boolean knob defaulting to `false`, listed as `text, boolean`. |
| Stories.SourceRootPrefix | packages/react/src/schematics/stories/stories.ts:37 | `join('/', root, '/')` starts and ends with `/` and holds the root in between; for an empty root it is `/`. |
| Strings.EndsWith | packages/react/src/schematics/stories/stories.ts:29 | `endsWith`: the last characters are the suffix. `Stories.StoryFilesSelected` and `Stories.ScriptFilesNotSelected` state what the filter admits and refuses. |
| Stories.IsComponentFile | packages/react/src/schematics/stories/stories.ts:29 | The filter: ends in `.tsx` and not in `.spec.tsx`. `Stories.StoryFilesSelected` and `Stories.ScriptFilesNotSelected` state what it admits and refuses. |
| Stories.SelectComponentFiles | packages/react/src/schematics/stories/stories.ts:28-32 | A path is selected exactly when it is visited and ends in `.tsx` but not in `.spec.tsx`. |
| Stories.CollectComponentPaths | packages/react/src/schematics/stories/stories.ts:27-32 | The visit callback collects exactly the selected paths, in visit order. |
| Stories.RunsFor | packages/react/src/schematics/stories/stories.ts:34-46 | One run per collected path, in order. Each run's path is that path with the first occurrence of the prefix removed, and each carries the project name. |
| Stories.CreateAllStories | packages/react/src/schematics/stories/stories.ts:17-46 | One run per selected path, in visit order. Each run's path is the selected path with the first `/root/` removed, and each carries the project name. The result does not depend on `generateCypressSpecs`. |
| Stories.SelectDistributes | packages/react/src/schematics/stories/stories.ts:28-32 | Filtering a concatenation filters each part, which keeps visit order. |
| Stories.SelectCounts | packages/react/src/schematics/stories/stories.ts:28-35 | Each component file is selected as often as it is visited, and nothing else is selected. |
| Stories.StoryFilesSelected | packages/react/src/schematics/stories/stories.ts:29 | An existing `*.stories.tsx` file is selected too. |
| Stories.ScriptFilesNotSelected | packages/react/src/schematics/stories/stories.ts:29 | `.ts` and `.js` files are never selected. |
| Stories.RelativeComponentPath | packages/react/src/schematics/stories/stories.ts:36-39 | A path that starts with `/root/` loses exactly that prefix. `Stories.RelativePathStripsRoot` states it for every path built under the root. |
| Stories.RelativePathStripsRoot | packages/react/src/schematics/stories/stories.ts:36-39 | A visited path under the source root loses exactly the `/root/` prefix. |
| Stories.JoinNormalized | packages/react/src/schematics/component-story/component-story.ts:54 | `normalize(join(root, relative))` for normalised operands. With both non-empty it is the root, one `/`, then the relative path. With an empty relative path it is the root, and with an empty root it is the relative path. |
| Stories.RunReadsVisitedFile | packages/react/src/schematics/stories/stories.ts:36-43 | Joining the rewritten path back onto the source root gives the visited file, without the visit's leading `/`. That is the file the `component-story` run reads. |

## Left out

- TypeScript parsing and the internals of `findNodes`: the syntax tree is an input, and every sequence in it is taken in document order.
- A props type named by a qualified name (`A.B`): the code reads `.text` of it and gets `undefined`. The model only has plain type-reference names.
- Interface members with a computed name (`[key]: string`): `.text` of the name is `undefined` and no error is thrown. The model gives every named member its identifier's text, and only a member without any name node fails.
- UTF-16 code units: JavaScript strings are sequences of UTF-16 code units, while a Dafny `string` is a sequence of characters. For a slash-free path ending in a character outside the Basic Multilingual Plane, `slice(-1)` takes half a surrogate pair; `ComponentStory.ComponentDirectory` takes the whole character.
- `Tree`, `Rule`, `chain`, `schematic`, `applyWithSkipExisting`, `applyTemplates`, `move`, `formatFiles` and `getProjectConfig`: these are file-system I/O and orchestration. The model stops at the values handed to them: a `StoryPlan` and a list of `Invocation`s.
- `tree.read`: it becomes an optional parsed file, and `None` means the file does not exist.
- `path.join`, `normalize` and the directory visit: the visited paths are an input. `JoinNormalized` covers only already-normalised operands; the resolution of `.` and `..` segments is not modelled.
- Stories.CreateAllStories: requires a normalised source root, with no empty, `.` or `..` segment and no leading or trailing `/`, because `path.join`'s normalisation is not modelled.
- Template contents and the rendered story text: only the template's parameters are modelled.
- `storybook-configuration`: its implementation is not part of this model.
- The logger call, the test helpers and the `default` exports.
- Isolating one failing `component-story` run from the rest of the batch: that depends on `chain`.

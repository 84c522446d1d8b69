# UML designer and Angular project generator — Dafny model

The application is a UML editor built on GoJS. Its designer edits class nodes that carry attribute and method lists, plus actors, use cases and system groups. Its project generator turns the diagram's `nodeDataArray` into a downloadable Angular project. This model covers two parts of it.

**Project generator** (`src/services/project-generator.service.ts`):

- The text pipeline:
  - `sanitizeClassName` makes an identifier.
  - `validateType`, `parseAttribute` and `parseMethodName` read UML labels such as `"+ nombre: tipo"` and `"+ metodo(): tipo"`.
  - `getComponentTs` and `getComponentHtml` fill in the component templates.
  - `updateAppModule` rewrites `app.module.ts` with two non-global regular-expression replacements.
- The archive writes of `copyTemplateFiles` and `updateFrontend`. The archive is a JSZip object, modelled as a class whose field maps paths to contents.

**Designer** (`src/app/designer/designer.component.ts`):

- The "+" and "×" buttons of a class node's attribute and method lists.
- The system group's `memberValidation` and `mouseDrop` rules.
- The `ExternalObjectsDropped` rule, which removes use cases dropped outside any system.
- `makePort` and `showSmallPorts` for the class node's four connection ports.

Layout:

| file | contents |
|---|---|
| `wrappers.dfy` | `Option` and `Result` |
| `text.dfy` | JavaScript `trim`, `split` with a one-character separator, `join`, and the ASCII character classes the regular expressions use |
| `pattern.dfy` | Leftmost-match semantics of a regular expression of the form `head[^stop]*tail`. Both `updateAppModule` patterns have this form. |
| `generator.dfy` | The generator's pure functions and the properties proved about them |
| `archive.dfy` | The `Zip` class with `CopyTemplateFiles` and `UpdateFrontend` (split into `WriteComponents`, `WriteNode` and `WriteAppModule`), specified by map-valued functions, and the file-layout lemmas |
| `designer.dfy` | Member-list entries as objects, because removal compares with `===`. Node data as a `Part` class whose lists are arrays that the handlers replace with fresh copies. The `Diagram` and `Port` classes. |

Behaviour of the code as written that the model states explicitly:

- `sanitizeClassName` drops only one leading digit: `"12ab"` gives `"2abComponent"`.
- `getComponentTs` receives the already suffixed name, so the exported class is `…ComponentComponent`. The import line that `updateAppModule` adds names the class `…Component`. `ComponentTsNames` and `ImportBlockLines` state the two names.
- Nodes whose names sanitize to the same class share one folder. The last of them decides the `.html` file (`NodeHtmlFile`, `NodeHtmlFileUnshadowed`).
- A node without `atributos` or `metodos` (an actor, a use case, a system) makes `getComponentHtml` throw. This happens after that node's `.ts` file was written. `UpdateFrontend` reports it and describes the archive at that point.

## Model

| member | source | states |
|---|---|---|
| Text.Trim | src/services/project-generator.service.ts:142 | `trim()`: the result has no surrounding whitespace and is the input minus a whitespace-only prefix and suffix |
| Text.TrimIdempotent | src/services/project-generator.service.ts:142-143 | trimming twice is trimming once (the trimmed parts of `parseAttribute`) |
| Text.Split | src/services/project-generator.service.ts:143 | `split(c)` yields at least one piece and no piece contains the separator |
| Text.SplitFirst | src/services/project-generator.service.ts:150 | `split('(')[0]` is the text before the first `(` |
| Text.SplitSecond | src/services/project-generator.service.ts:142-144 | `split(':')` has a second piece exactly when the text holds `:`, and that piece runs from after the first `:` to the next one |
| Text.JoinSplit | src/services/project-generator.service.ts:90 | joining the pieces of a split with its separator gives back the text |
| Text.SplitJoinChar | src/services/project-generator.service.ts:88-90 | splitting a `join('\n')` of lines without line breaks gives back exactly those lines |
| Text.SplitJoin | src/services/project-generator.service.ts:93-95 | splitting a `join(',\n    ')` on `,` gives the first name and then each further name behind the line break and indentation |
| Text.Join | src/services/project-generator.service.ts:88-90 | `join(sep)`: the parts with `sep` between consecutive ones, "" for no parts (its properties are stated by Text.JoinSplit, Text.SplitJoinChar and Text.SplitJoin) |
| Text.LowerAscii | src/services/project-generator.service.ts:111 | one character of `toLowerCase()`: an upper-case ASCII letter becomes the letter 32 code points above it, every other character is kept |
| Text.ToLowerAscii | src/services/project-generator.service.ts:111 | `toLowerCase()` on ASCII text: same length, upper-case letters mapped, all else kept |
| Pattern.MatchUnique | src/services/project-generator.service.ts:98-99 | a `head[^stop]*tail` match starting at a given position ends at the first stop character after the head |
| Pattern.MatchEndComplete | src/services/project-generator.service.ts:98-99 | every match starting at a position is the one `MatchEnd` finds there, so trying each start in turn misses none |
| Pattern.Leftmost | src/services/project-generator.service.ts:98-99 | a non-global `replace` finds the leftmost match, and finds none exactly when the pattern occurs nowhere |
| ProjectGenerator.KeepAlnum | src/services/project-generator.service.ts:103 | `replace(/[^a-zA-Z0-9]/g, '')` leaves only ASCII letters and digits and never lengthens the text |
| ProjectGenerator.KeepAlnumOne | src/services/project-generator.service.ts:103 | a single character is kept exactly when it is an ASCII letter or digit and removed otherwise (with KeepAlnumAppend this fixes the filter on every text) |
| ProjectGenerator.KeepAlnumDropsAll | src/services/project-generator.service.ts:103 | a text without letters or digits is removed entirely |
| ProjectGenerator.KeepAlnumOfAlnum | src/services/project-generator.service.ts:103 | the filter keeps a string of letters and digits whole |
| ProjectGenerator.SanitizeClassName | src/services/project-generator.service.ts:102-104 | ends in "Component"; only letters and digits; the prefix is the filtered name minus its first character exactly when that character is a digit |
| ProjectGenerator.SanitizeDropsOneDigit | src/services/project-generator.service.ts:103 | "12ab" becomes "2abComponent": only one leading digit is removed |
| ProjectGenerator.SanitizedIsPlain | src/services/project-generator.service.ts:102-104 | a sanitized name holds no line break, comma, slash or quote, so it cannot break the generated lines, lists or paths |
| ProjectGenerator.ValidateType | src/services/project-generator.service.ts:153-156 | the result is always one of string/number/boolean/Date; it equals the input exactly when the input is one of them, else 'string' |
| ProjectGenerator.ValidateTypeIdempotent | src/services/project-generator.service.ts:153-156 | applying validateType twice equals applying it once |
| ProjectGenerator.StripModifier | src/services/project-generator.service.ts:142 | `replace(/^[+\-~]/, '')` removes one leading `+`, `-` or `~` and nothing else |
| ProjectGenerator.ParseAttribute | src/services/project-generator.service.ts:141-147 | the type is whitelisted; the name is trimmed and has no `:`; without `:` the name is the whole cleaned label and the type 'string' |
| ProjectGenerator.ParseAttributeByColons | src/services/project-generator.service.ts:141-147 | name = cleaned text before the first `:`; type = validated text between first and second `:`; 'string' without `:`; later pieces ignored |
| ProjectGenerator.ParseAttributeLabel | src/services/project-generator.service.ts:141-147 | reading back a label written as "+ name: type" gives the name and the validated type |
| ProjectGenerator.ParseAttributeWithRest | src/services/project-generator.service.ts:143-145 | "+ name: type" followed by further `:` pieces parses to the same name and validated type: later pieces are ignored |
| ProjectGenerator.ParseAttributeKeepsModifierAfterSpace | src/services/project-generator.service.ts:142 | the modifier is stripped before trimming, so " +x: T" keeps "+x" as its name |
| ProjectGenerator.DefaultAttributeParses | src/services/project-generator.service.ts:141-147 | the default label "+ nuevoAtributo: tipo" parses to ("nuevoAtributo", "string") |
| ProjectGenerator.ParseMethodName | src/services/project-generator.service.ts:149-151 | the method name is trimmed and never contains `(` |
| ProjectGenerator.ParseMethodNameBeforeParen | src/services/project-generator.service.ts:150 | the name is the text before the first `(`, without one leading modifier, trimmed |
| ProjectGenerator.ParseMethodLabel | src/services/project-generator.service.ts:149-151 | reading back a label written as "+ name(): type" gives the name |
| ProjectGenerator.DefaultMethodParses | src/services/project-generator.service.ts:149-151 | the default label "+ nuevoMetodo(): tipo" is named "nuevoMetodo" |
| ProjectGenerator.GetComponentTs | src/services/project-generator.service.ts:107-119 | for a name without line breaks, the source's lines are exactly the template's eleven lines filled in with the name |
| ProjectGenerator.ComponentTsNames | src/services/project-generator.service.ts:111-115 | for a sanitized name the selector is "app-" + its lower-case form, and the class is prefix + "ComponentComponent" (the suffix twice) |
| ProjectGenerator.GetComponentHtml | src/services/project-generator.service.ts:121-139 | succeeds exactly when the node has both member lists, and otherwise fails with the missing-list error |
| ProjectGenerator.AttributeLine | src/services/project-generator.service.ts:123-124 | one attribute as `<p>name: type</p>` of its parsed label (ProjectGenerator.AttributeLineUnbroken and ProjectGenerator.AttributeBlockLines state its properties) |
| ProjectGenerator.AttributeLineUnbroken | src/services/project-generator.service.ts:123-124 | the line of an attribute whose label has no line break has none either |
| ProjectGenerator.MethodLine | src/services/project-generator.service.ts:128-129 | one method as a button calling and showing its parsed name (ProjectGenerator.MethodLineUnbroken and ProjectGenerator.MethodBlockLines state its properties) |
| ProjectGenerator.MethodLineUnbroken | src/services/project-generator.service.ts:128-129 | the line of a method whose label has no line break has none either |
| ProjectGenerator.AttributeBlockLines | src/services/project-generator.service.ts:122-125 | one `<p>name: type</p>` line per attribute, in input order, with the parsed name and the whitelisted type; no attributes give an empty block |
| ProjectGenerator.MethodBlockLines | src/services/project-generator.service.ts:127-130 | one button line per method, in input order, calling and showing the parsed method name; no methods give an empty block |
| ProjectGenerator.AppendAfterMatch | src/services/project-generator.service.ts:98 | `$&` + block: the block is inserted right after the leftmost match and all text before and after is kept; no match, no change |
| ProjectGenerator.RewriteList | src/services/project-generator.service.ts:99 | only the leftmost `declarations: [...]` is rewritten: it keeps its old contents ($1) and gains the new names; the rest is kept; no match, no change |
| ProjectGenerator.InsertImports | src/services/project-generator.service.ts:98 | the first replace: without an `@angular/core` import nothing changes; otherwise a line break and the import block go right after the end of the leftmost such import, all else kept |
| ProjectGenerator.ExtendDeclarations | src/services/project-generator.service.ts:99 | the second replace: without a `declarations: [...]` list nothing changes; otherwise the leftmost list keeps its old contents ($1) and gains the separator, the class names and a closing line break, all else kept |
| ProjectGenerator.UpdateAppModule | src/services/project-generator.service.ts:86-100 | when neither pattern occurs the module comes back unchanged |
| ProjectGenerator.ImportBlockLines | src/services/project-generator.service.ts:88-90 | the inserted block is one import line per node, in nodeDataArray order, importing the sanitized class from its own folder; with no nodes the block is empty, so only a line break is inserted |
| ProjectGenerator.DeclarationBlockNames | src/services/project-generator.service.ts:93-95 | the added declarations are the nodes' class names, one per node, in order; with no nodes nothing follows the separator |
| Archive.Zip.constructor | src/services/project-generator.service.ts:24 | a new archive is empty |
| Archive.Zip.File | src/services/project-generator.service.ts:46 | `zip.file(path, content)` adds or replaces exactly that one file |
| Archive.Zip.CopyFile | src/services/project-generator.service.ts:43-46 | the callback for one template file writes it at `projectName/` + its path, extending the relocated copy by exactly that file |
| Archive.Zip.CopyTemplateFiles | src/services/project-generator.service.ts:39-52 | afterwards the archive holds every template file under `projectName/`, whatever order the writes land in |
| Archive.Relocated | src/services/project-generator.service.ts:42-49 | each template path p maps to `projectName/p` with p's contents, and nothing else is there |
| Archive.RelocatedAdd | src/services/project-generator.service.ts:42-49 | copying one more file adds exactly one entry (relocated paths never collide) |
| Archive.Zip.UpdateFrontend | src/services/project-generator.service.ts:59-84 | succeeds exactly when every node has both member lists, leaving the archive of `Frontend`; otherwise stops after the first such node's .ts file |
| Archive.FirstWithoutMemberLists | src/services/project-generator.service.ts:63-77 | the first node whose HTML template throws: every earlier node has both lists, and it exists exactly when some node lacks one |
| Archive.Zip.WriteComponents | src/services/project-generator.service.ts:63-77 | the `forEach` over the nodes: completes exactly when every node has both member lists, leaving `Components` of all nodes; otherwise stops after the first such node's .ts file |
| Archive.Zip.WriteNode | src/services/project-generator.service.ts:64-76 | one node: its .ts file, then its template and an empty .css file when it has both member lists, and only the .ts file otherwise |
| Archive.Zip.WriteAppModule | src/services/project-generator.service.ts:79-83 | app.module.ts becomes `UpdateAppModule` of its previous contents, or of "" when it was absent |
| Archive.Components | src/services/project-generator.service.ts:63-77 | the archive after the nodes' component files were written in order: .ts, .html, then an empty .css per node (its properties are stated by the layout lemmas below) |
| Archive.Frontend | src/services/project-generator.service.ts:59-84 | the archive after updateFrontend completes: Components of every node, then app.module.ts rewritten (stated by Archive.FrontendNodeFiles, Archive.FrontendAppModule and Archive.FrontendElsewhere) |
| Archive.FirstWithoutMemberListsIs | src/services/project-generator.service.ts:63-77 | the first node lacking a list is unique |
| Archive.ComponentPathInjective | src/services/project-generator.service.ts:68-76 | two component paths coincide exactly when class name and extension do |
| Archive.AppModuleIsNoComponentPath | src/services/project-generator.service.ts:80 | no component file lands on app.module.ts |
| Archive.ComponentsElsewhere | src/services/project-generator.service.ts:63-77 | paths outside every component folder keep their contents |
| Archive.ComponentsLastWriter | src/services/project-generator.service.ts:63-77 | a folder written several times holds the .ts and .html of its last writer and an empty .css |
| Archive.NodeTsFile | src/services/project-generator.service.ts:68-69 | each node's `C/C.component.ts` holds getComponentTs(C) |
| Archive.NodeHtmlFile | src/services/project-generator.service.ts:72-73 | each node's `C/C.component.html` exists and holds the template of a node at or after it whose name sanitizes to C |
| Archive.NodeHtmlFileUnshadowed | src/services/project-generator.service.ts:72-73 | when no later node's name sanitizes to C, `C/C.component.html` holds the node's own template |
| Archive.NodeCssFile | src/services/project-generator.service.ts:76 | each node's `C/C.component.css` is empty |
| Archive.ComponentsKeepAppModule | src/services/project-generator.service.ts:79-81 | writing components leaves app.module.ts as it was |
| Archive.FrontendAppModule | src/services/project-generator.service.ts:79-83 | app.module.ts ends as the rewrite of the file that was there before, or of "" when there was none |
| Archive.FrontendKeepsComponentFile | src/services/project-generator.service.ts:79-83 | rewriting app.module.ts leaves every component file as the component writes left it |
| Archive.FrontendNodeFiles | src/services/project-generator.service.ts:63-83 | after updateFrontend each node's folder holds getComponentTs(C), the template of a same-named node at or after it, and an empty .css |
| Archive.FrontendElsewhere | src/services/project-generator.service.ts:59-84 | every path other than the component files and app.module.ts is untouched |
| Designer.Entry.constructor | src/app/designer/designer.component.ts:85 | a new entry object holds the given text |
| Designer.FirstIndex | src/app/designer/designer.component.ts:138 | `findIndex(a => a === x)`: -1 exactly when x is absent, else a position holding x with no x before it |
| Designer.FirstIndexIs | src/app/designer/designer.component.ts:138 | a position holding x with no earlier x is the one findIndex returns |
| Designer.FindIndex | src/app/designer/designer.component.ts:138 | the loop returns `FirstIndex` of the array's contents |
| Designer.RemoveFirst | src/app/designer/designer.component.ts:137-140 | the list after a click on "×": the first occurrence of the clicked entry spliced out (stated by Designer.RemoveFirstCount, Designer.RemoveFirstOrder and Designer.AddThenRemove) |
| Designer.RemoveFirstCount | src/app/designer/designer.component.ts:137-142 | removal takes exactly one occurrence of a present entry (length minus one, multiset minus that entry) and keeps the list when it is absent |
| Designer.RemoveFirstOrder | src/app/designer/designer.component.ts:140 | `splice(idx, 1)`: entries before keep their places, later ones move up by one |
| Designer.AddThenRemove | src/app/designer/designer.component.ts:84-89 | removing the entry just appended restores the list |
| Designer.AppendedCopy | src/app/designer/designer.component.ts:86-87 | `[...(a || [])]` then `push`: a fresh array with the old entries and the new one last |
| Designer.SplicedCopy | src/app/designer/designer.component.ts:137-140 | a fresh array without the entry at idx |
| Designer.WithoutFirst | src/app/designer/designer.component.ts:137-141 | a fresh array without the first clicked entry when present; otherwise the same array |
| Designer.AddAttribute | src/app/designer/designer.component.ts:80-91 | the node gets a fresh list: old entries in order plus a new "+ nuevoAtributo: tipo" entry; metodos and group unchanged; old array untouched |
| Designer.AddMethod | src/app/designer/designer.component.ts:175-186 | the same for metodos with "+ nuevoMetodo(): tipo" |
| Designer.RemoveAttribute | src/app/designer/designer.component.ts:131-145 | a fresh list without the first occurrence of the clicked entry; the node is left alone when it is not there |
| Designer.RemoveMethod | src/app/designer/designer.component.ts:226-240 | the same for metodos |
| Designer.Diagram.constructor | src/app/designer/designer.component.ts:353 | a diagram on a new model has no parts and nothing selected |
| Designer.MemberValidation | src/app/designer/designer.component.ts:461 | a system group accepts exactly the nodes of category "CasoUso" |
| Designer.Orphan | src/app/designer/designer.component.ts:514 | a part is removed after a drop exactly when it is a node of category "CasoUso" outside any group |
| Designer.Diagram.MouseDrop | src/app/designer/designer.component.ts:461-478 | unless drag-selecting, exactly the selected nodes that pass memberValidation (category "CasoUso") get the group's key; other selected parts keep theirs |
| Designer.Diagram.ExternalObjectsDropped | src/app/designer/designer.component.ts:512-520 | exactly the dropped use-case nodes without a group are removed; everything else stays |
| Designer.Port.MakePort | src/app/designer/designer.component.ts:278-293 | portId = name; alignment, alignmentFocus, fromSpot, toSpot = spot; fromLinkable = output; toLinkable = input; transparent fill |
| Designer.ClassNodePorts | src/app/designer/designer.component.ts:253-256 | the class node has ports T, L, R, B at their sides, each linkable both ways, with non-empty ids |
| Designer.ShowSmallPorts | src/app/designer/designer.component.ts:260-266 | named ports turn "rgba(0,0,0,.3)" when shown and transparent when hidden; the default port (empty id) keeps its fill |

## Left out

- GoJS template and visual configuration (`initDiagram`'s shapes, fonts, margins, link template, adornment, actor geometry, `initPalette`). These are presentation settings of a library whose code is not part of this model.
- `exportDiagram` and `importDiagram`. They are Blob, DOM and FileReader I/O around the foreign `toJson` and `fromJson`.
- `loadTemplate`, `generateProject`, `applyCustomizations`, `zip.generateAsync`, `saveAs` and `HttpClient`. These are network and download I/O plus promise plumbing. The template archive is a parameter of `CopyTemplateFiles`. `applyCustomizations` only forwards to `UpdateFrontend`.
- `src/app/code-generator/code-generator.component.ts`, `src/app/diagram-data.ts` and `src/app/app.routes.ts` are not part of this model. They hold UI glue, type declarations and routing.
- The `alert` shown before a use case is removed. It is a user-interface side effect.
- `startTransaction`, `commitTransaction` and the undo manager. The model states the data changes a transaction groups, not the undo history.
- Template file contents are modelled as text. The source copies them as bytes (`uint8array`).
- JSZip folder entries created by `zip.folder(...)`. Only file entries are modelled.
- Asynchrony of `copyTemplateFiles`. Its writes are taken in an arbitrary order (`:|`), and the result is the same for every order.
- Strings are sequences of Unicode scalar values, while JavaScript strings are UTF-16 code units, so a lone surrogate cannot be represented. No modelled operation depends on the difference: all its patterns and separators are ASCII.
- Text.ToLowerAscii: lowercases ASCII letters only. This is exact for the sanitized names the generator passes, which are ASCII letters and digits.
- A node whose `nombre` is not a string (it would make `sanitizeClassName` throw). Names are modelled as strings.
- `containingGroup` is modelled by the node data's `group` key. A key naming no existing group, which GoJS treats as no group, is not modelled.
- Links: `diagram.remove` also removes a node's links, and links are not modelled.
- Editing an entry's text through the two-way binding is not modelled. Only the button handlers are.
- `e.handled` and `diagram.selection` are modelled as a returned flag and a sequence of parts.
- Designer.RemoveAttribute: when the node has no `atributos` array, spreading it throws before anything changes. The model leaves the node unchanged without modelling the exception.
- Designer.RemoveMethod: when the node has no `metodos` array, spreading it throws before anything changes. The model leaves the node unchanged without modelling the exception.
- ProjectGenerator.GetComponentTs: the line structure is stated only for names without line breaks. Every sanitized name qualifies.
- ProjectGenerator.AttributeBlockLines: the line structure is stated only for labels without line breaks. A label with a line break would spread over several lines of the page.
- ProjectGenerator.MethodBlockLines: the line structure is stated only for labels without line breaks, for the same reason.
- ProjectGenerator.UpdateAppModule: its own contract covers only the no-match case. The effect of each replacement when its pattern matches is stated by ProjectGenerator.AppendAfterMatch and ProjectGenerator.RewriteList.

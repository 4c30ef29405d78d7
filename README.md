# hexo-component-inferno, core logic in Dafny

This project models the logic at the centre of hexo-component-inferno, a library of Inferno
components, Hexo tags, filters and helpers for Hexo themes. It models these pieces:

- **Configuration schemas** (`src/core/schema.js`).
  - `DefaultValue` wrappers: a value plus its description.
  - Flattening, merging and the commented form that `toYaml` renders.
  - Default-configuration synthesis from JSON-Schema-like definitions:
    `const`/`default`/`examples`, typed defaults, `$ref`, `oneOf`, arrays and objects.
  - The `SchemaLoader` registry and the recursive `$ref` loading of `SchemaLoader.load`.
- **Configuration migration** (`src/core/migrate.js`).
  - The `Migrator` walks a chain of migration classes.
  - It answers the latest and is-outdated queries.
  - It upgrades a configuration through each version after the configuration's own, up to a
    target.
- **Table-of-contents numbering** (`getToc`, `src/view/widget/toc.jsx`).
- **The `{% tabs %}` tag's option tokenizer and option folds** (`src/hexo/tag/tabs.js`).
- **The `{% message %}` tag** (`src/hexo/tag/message.js`).
- **The `<meta>` string parser** (`src/view/misc/meta.jsx`).
- **The class-name builder** (`src/util/classname.js`).
- **The `template_locals` configuration layering** (`src/hexo/filter/locals.js`).
- **The web-app touch icons and tile image** (`src/view/misc/web_app.jsx`).
- **The archive widget's grouping of posts** (`src/view/widget/archives.jsx`).

## How JavaScript is modelled

JavaScript values are the datatype `JsValue.Value`. Its constructors:

- `undefined`, `null`, booleans, numbers and strings;
- arrays;
- objects, written as association lists in key order;
- `DefaultValue` wrappers (`DV`).

Two of its operations:

- `Truthy` is JavaScript truthiness.
- `ToStr` is the text a template literal or `String()` gives a value.

Each exception the source throws is a `Failure` of `Wrappers.Result`:

- `Thrown(message)` for an `Error` the code raises itself;
- `TypeError(...)` for reading a property of `undefined`/`null`, or for calling a missing
  method.

**Helper modules.**

- `JsString`: the string built-ins the code calls (`trim`, `split`, `join`, number printing,
  `split(/\s+/)`, `toLowerCase`).
- `Assoc`: the object operations `Object.assign`, property get and property put on association
  lists.

**How the source's forms are kept.**

- Code that is written as loops becomes methods with loops: `splitTabOptions`, the
  option loops of the tags, `getToc`, meta's `split`, `loadLayoutConfig` and the archive
  grouping. Each such method is proved equal to a functional specification.
- Classes whose fields the code updates become Dafny classes: `DefaultValue`, `Schema`,
  `SchemaLoader`, `Migrator`, and the page locals the filter mutates.

**Where the model follows the code rather than the documentation.**

- `DefaultValue.merge` has no `return` statement, so a call to it yields `undefined`. The
  model follows the code. Chained uses therefore see `undefined`:
  - an array `oneOf` with a plain `items` default produces `undefined` elements;
  - a typed definition that also has `$ref` throws a `TypeError`;
  - a `$ref`-only definition yields `undefined`.
- The migrator's invalid-version message, which ends with a stray `}`, is kept as written.

## Model

| member | source | states |
|---|---|---|
| DefaultValues.Flattened | src/core/schema.js:81-89 | the flattened wrapper holds no wrapper as its value; an unnested wrapper is unchanged; a truthy description stays truthy |
| DefaultValues.Chain | src/core/schema.js:81-89 | the wrappers met going inwards: each one's value is the next wrapper, and the last one's value is not a wrapper |
| DefaultValues.FlattenedIsInnermost | src/core/schema.js:81-89 | flattening keeps the innermost value and the innermost truthy description, falling back to the outer one |
| DefaultValues.InnermostDescriptionFallback | src/core/schema.js:83-86 | the loop's replace-when-truthy rule picks the innermost truthy description, or else the fallback |
| DefaultValues.FlattenedIdempotent | src/core/schema.js:81-89 | flattening twice is the same as flattening once |
| DefaultValues.MergedValue | src/core/schema.js:104-116 | merging two arrays concatenates their items; merging two objects yields an object |
| DefaultValues.Merged | src/core/schema.js:97-121 | merging `undefined` throws, and nothing else does; a description-only source or a `null` value leaves the target value unchanged |
| DefaultValues.MergePrimitives | src/core/schema.js:104-116 | between two primitives the source value replaces the target value when both have the same type or the target is `null`; otherwise the target value is kept |
| DefaultValues.MergeNestedWrappers | src/core/schema.js:97-121 | a source whose value is itself a wrapper is flattened first, and its description is adopted |
| DefaultValues.MergeIntoDefined | src/core/schema.js:97-121 | merging a wrapper into a wrapper of a defined value succeeds and merges the flattened source's value |
| DefaultValues.DescriptionLines | src/core/schema.js:137-140 | there are no description lines exactly when the description is not a string or is blank after trimming |
| DefaultValues.ArrayMarkers | src/core/schema.js:140-142 | one marker string per line: MAGIC, the line's index, `: `, then the line |
| DefaultValues.Spread | src/core/schema.js:135-147 | `[].concat` splices an array's elements and keeps any other value whole |
| DefaultValues.CommentedItems | src/core/schema.js:134-148 | the `map` callback's results from element i on, each spread by `[].concat`; stated by `ItemsStep`, `ItemsUnwrapped`, `PlainItemsUnchanged` and `CommentedArrayExample` |
| DefaultValues.ItemsStep | src/core/schema.js:134-148 | the commented elements from i on are element i's spread piece followed by the commented elements after it |
| DefaultValues.Commented | src/core/schema.js:188-195 | an array gives an array, an object gives an object, and any other value is returned as it is |
| DefaultValues.CommentedEntry | src/core/schema.js:163-175 | after one property is processed, its key holds that property's commented value (a primitive is copied as it is) |
| DefaultValues.CommentedEntries | src/core/schema.js:157-178 | the `for…in` from property i on, writing onto the entries so far; stated by `CommentedEntriesInOrder` and `ObjectInOrder` (every piece appended in property order), `EntriesUnwrapped` and `PlainEntriesUnchanged` |
| DefaultValues.MarkerKeyDiffers | src/core/schema.js:165-170 | a comment key never collides with the key of the property it describes |
| DefaultValues.PutMarkersKeeps | src/core/schema.js:165-169 | writing the comment keys leaves every other key untouched |
| DefaultValues.PutMarkersWrites | src/core/schema.js:165-169 | comment key MAGIC+key+j holds line j of the description |
| DefaultValues.DescribedPropertyMarkers | src/core/schema.js:164-170 | a described property gets its commented value, and comment key MAGIC+key+j holds line j of its description |
| DefaultValues.PutMarkers | src/core/schema.js:166-168 | writing comment keys keeps every key already present |
| DefaultValues.MarkerEntries | src/core/schema.js:166-168 | one comment entry per description line: key MAGIC+key+j with line j as a string |
| DefaultValues.PutMarkersAppend | src/core/schema.js:166-168 | when the comment keys are new, writing them appends them in line order |
| DefaultValues.EntryPiece | src/core/schema.js:164-175 | the entries one property contributes end with its own key; a wrapper's comment entries come first; any other value contributes one entry |
| DefaultValues.CommentedEntryInOrder | src/core/schema.js:163-175 | when its keys are new, processing one property appends its piece: the comment keys, then the property |
| DefaultValues.ObjectPieces | src/core/schema.js:162-176 | the pieces of the properties from index i on, in property order; at least one entry per property |
| DefaultValues.PiecesStep | src/core/schema.js:162-176 | the pieces from i are the piece of property i followed by the pieces after it |
| DefaultValues.CommentedEntriesInOrder | src/core/schema.js:162-176 | when no key repeats, the `for…in` loop appends every property's piece in order |
| DefaultValues.ObjectInOrder | src/core/schema.js:157-178 | when no key repeats, the commented object is exactly the pieces in property order, every comment key right before the key it describes |
| DefaultValues.DescribedOneLineEntry | src/core/schema.js:164-170 | a scalar property with a one-line description gives `MAGIC+key+0` and then the property |
| DefaultValues.DescribedTwoLinesEntry | src/core/schema.js:164-170 | a two-line description gives `MAGIC+key+0`, `MAGIC+key+1`, then the property |
| DefaultValues.MarkerKeyText | src/core/schema.js:167 | for a line index below ten, the comment key is MAGIC, the key and one digit |
| DefaultValues.FourPieces | src/core/schema.js:162-176 | a four-property object's pieces are its four properties' pieces in order |
| DefaultValues.ObjectExampleKeys | src/core/schema.js:157-178 | the commented form of the worked object below has no key twice |
| DefaultValues.ObjectExamplePieces | src/core/schema.js:162-176 | the worked object {a: 0, b: 1 described, c: 2, d: 3 with a two-line description} gives a, the b comment, b, c, both d comments, d |
| DefaultValues.CommentedObjectExample | src/core/schema.js:157-195 | the worked object, wrapped, is commented with each comment key right before the key it describes |
| DefaultValues.NestedArrayInObjectExample | src/core/schema.js:134-178 | a described element of an array inside an object gets its array marker right before it, inside that array |
| DefaultValues.NestedObjectInArrayExample | src/core/schema.js:134-178 | a described property of an object inside an array gets its comment key right before it, inside that object |
| DefaultValues.UndescribedItem | src/core/schema.js:136-146 | an array element with no description contributes only its commented value |
| DefaultValues.DescribedItem | src/core/schema.js:136-142 | a described element contributes its markers in line order, then its commented value |
| DefaultValues.OneLineDescription | src/core/schema.js:140 | a one-line description gives that one line |
| DefaultValues.TwoLineDescription | src/core/schema.js:140 | a description split by a newline gives its two lines in order |
| DefaultValues.ArrayMarkerText | src/core/schema.js:141 | the marker of line i is MAGIC followed by the decimal index and `: ` |
| DefaultValues.OneMarker | src/core/schema.js:140-142 | the marker of a one-line description is `MAGIC0: line` |
| DefaultValues.TwoMarkers | src/core/schema.js:140-142 | the markers of a two-line description are `MAGIC0: …` and `MAGIC1: …` |
| DefaultValues.DescribedOneLine | src/core/schema.js:136-142 | a one-line described scalar becomes its marker followed by the scalar |
| DefaultValues.DescribedTwoLines | src/core/schema.js:136-142 | a two-line described scalar becomes both markers followed by the scalar |
| DefaultValues.CommentedArrayExample | src/core/schema.js:134-148 | a worked array mixing described and plain elements lists every marker before the element it describes |
| DefaultValues.NestedArraySpliced | src/core/schema.js:143-147 | a nested array element is spliced into the outer array by the spreading `concat` |
| DefaultValues.DescribedArraySpliced | src/core/schema.js:136-147 | a described array element is spliced too: its marker first, then its elements |
| DefaultValues.PlainUnchanged | src/core/schema.js:134-195 | a value with no wrappers anywhere has a commented form equal to itself |
| DefaultValues.PlainItemsUnchanged | src/core/schema.js:134-148 | the array form of plain elements is those same elements |
| DefaultValues.PlainEntriesUnchanged | src/core/schema.js:157-178 | the object form of plain properties is those same properties |
| DefaultValues.CommentedPiece | src/core/schema.js:136-146 | what one array element contributes before splicing: an object for an object, an array for anything else |
| DefaultValues.CommentedUnwrapped | src/core/schema.js:134-195 | the commented form of any value holds no wrapper anywhere, and its objects have no key twice |
| DefaultValues.PieceUnwrapped | src/core/schema.js:135-147 | the elements one array element is spliced into hold no wrapper |
| DefaultValues.ItemsUnwrapped | src/core/schema.js:134-148 | the commented elements of an array hold no wrapper |
| DefaultValues.EntryUnwrapped | src/core/schema.js:163-175 | processing one property keeps the object free of wrappers and repeated keys |
| DefaultValues.EntriesUnwrapped | src/core/schema.js:162-176 | the `for…in` loop keeps the object free of wrappers and repeated keys |
| DefaultValues.MarkersUnwrapped | src/core/schema.js:166-168 | writing the comment keys keeps the object free of wrappers and repeated keys |
| DefaultValues.PutUnwrapped | src/core/schema.js:167 | writing an unwrapped value into an object free of wrappers keeps it free of them |
| DefaultValues.SpreadUnwrapped | src/core/schema.js:135 | spreading an unwrapped value gives only unwrapped elements |
| DefaultValues.ConcatUnwrapped | src/core/schema.js:135 | joining two lists of unwrapped values gives a list of unwrapped values |
| DefaultValues.DefaultValue.constructor | src/core/schema.js:51-54 | the new wrapper holds the given value and description |
| DefaultValues.DefaultValue.Clone | src/core/schema.js:63-73 | a fresh wrapper with the same state |
| DefaultValues.DefaultValue.Flatten | src/core/schema.js:81-89 | the new state is the flattening of the old state |
| DefaultValues.DefaultValue.Merge | src/core/schema.js:97-121 | fails exactly on `undefined`; on success the new state is the merge of the old state with the source |
| DefaultValues.DefaultValue.MergeValue | src/core/schema.js:105-119 | the new value is the merged value of the old value and the source |
| DefaultValues.DefaultValue.ToCommented | src/core/schema.js:188-195 | the result is the commented form of the wrapper's value |
| DefaultValues.DefaultValue.ToCommentedArray | src/core/schema.js:134-148 | the `map` and spreading `concat` expression gives the commented form of the array, and it is an array |
| DefaultValues.DefaultValue.ToCommentedObject | src/core/schema.js:157-178 | the `for…in` loop's result is the commented form of the object, whose keys follow the source's order with each property's comment keys right before it |
| DefaultValues.WriteProperty | src/core/schema.js:163-175 | one iteration writes exactly what `CommentedEntry` specifies |
| Schemas.PrimitiveDefault | src/core/schema.js:19-27 | defined for exactly the seven type names; each default is falsy except the array and the object |
| Schemas.TypeName | src/core/schema.js:270 | the type dispatched on: the first element of an array `type`, otherwise `type` itself |
| Schemas.Effective | src/core/schema.js:300-302 | a falsy definition stands for the schema's own definition |
| Schemas.StringTypeDefault | src/core/schema.js:268-289 | `{type: "string"}` gives the empty string with no description |
| Schemas.NullableIntegerFields | src/core/schema.js:270-277 | `{type: ["integer", "null"], nullable: true, description}` has none of `const`, `default`, `examples`, `$ref`, and its type name is `integer` |
| Schemas.NullableTypeDefault | src/core/schema.js:268-289 | that nullable integer definition gives `null` with its description |
| Schemas.GetDefault | src/core/schema.js:299-319 | a non-object definition throws; a falsy definition means the schema's own; `const` comes first, then `default`, then the first example, each with the definition's description; then the typed default, and a truthy `type` beside a truthy `$ref` fails |
| Schemas.Typed | src/core/schema.js:268-289 | an unknown type name throws `Cannot get default value for type …`; a primitive type gives its default, or `null` when `nullable`; a `$ref` beside a type throws |
| Schemas.Referred | src/core/schema.js:291-297 | an id that is not loaded throws `Schema … is not loaded`; success is always `undefined` |
| Schemas.ArrayDefault | src/core/schema.js:229-251 | an array carrying the description; non-object `items` throws; without `oneOf` the array is the one plain-items default; with `oneOf` it has one element per alternative: that alternative's default when the plain items have none, `undefined` (the result of `merge`) when they have one |
| Schemas.Alternatives | src/core/schema.js:238-243 | one element per `oneOf` alternative, in order: the alternative's own default when there is no plain-items default, and `undefined` for every element when there is one |
| Schemas.PlainItemsDefault | src/core/schema.js:232-236 | the default of `items` without its `oneOf`, or `undefined` when `items` is not an object |
| Schemas.ObjectDefault | src/core/schema.js:253-266 | an object carrying the definition's description; without `oneOf` it is exactly the declared properties' defaults; with `oneOf` it is those merged with the flattened default of the first alternative |
| Schemas.DeclaredDefaults | src/core/schema.js:254-259 | the `for…in` over `properties`, or no entries when `properties` is not an object |
| Schemas.ObjectDefaultOneOf | src/core/schema.js:261-264 | with `oneOf`, key by key the first alternative's default wins over a declared property's default |
| Schemas.PropertyDefaults | src/core/schema.js:255-259 | the keys afterwards are the keys of the accumulator plus those of the properties |
| Schemas.PropertyDefaultsValues | src/core/schema.js:256-258 | each property's key holds that property's own default |
| Schemas.ObjectDefaultProperties | src/core/schema.js:253-266 | each declared property maps to the default of its own definition |
| SchemaRegistry.Schema.constructor | src/core/schema.js:210-220 | the schema holds its loader and its definition |
| SchemaRegistry.Schema.Create | src/core/schema.js:210-220 | a missing loader is rejected first, then a non-object definition, each with the source's message; success otherwise |
| SchemaRegistry.Schema.GetDefaultValue | src/core/schema.js:299-319 | the default is synthesised against the loader's current registry |
| SchemaRegistry.RefNotScanned | src/core/schema.js:350-364 | the value of a `$ref` is passed to the handler whole and is not scanned |
| SchemaRegistry.RefThenSibling | src/core/schema.js:350-364 | properties after a `$ref` are still scanned, in order |
| SchemaRegistry.Refs | src/core/schema.js:350-364 | the values `traverseObj` hands to the handler, in order: each `$ref` value whole, then what the other properties, array elements and wrapped values contain; stated by `RefNotScanned`, `RefThenSibling` and `SchemaLoader.Traverse` |
| SchemaRegistry.ItemRefs | src/core/schema.js:351-354 | the references of an array's first n elements, in order; stated by `SchemaLoader.TraverseItems` and `SchemaLoader.VisitItem` |
| SchemaRegistry.EntryRefs | src/core/schema.js:355-362 | what an object's first n keys hand over or contain, in order; stated by `SchemaLoader.TraverseEntries` and `SchemaLoader.VisitEntry` |
| SchemaRegistry.DuplicateId | src/core/schema.js:336 | the validator's message for an id it already holds; `SchemaLoader.AddSchema` fails with it on a duplicate `$id` |
| SchemaRegistry.FirstMatch | src/core/schema.js:382-397 | the module comes from the first directory that has it, or the reference is not found |
| SchemaRegistry.FirstMatchSkip | src/core/schema.js:382-391 | a directory without a matching module is passed over |
| SchemaRegistry.FirstMatchStop | src/core/schema.js:382-391 | a directory with a matching module ends the search; a `null` module throws on reading `$id` |
| SchemaRegistry.SchemaLoader.constructor | src/core/schema.js:323-326 | a new loader has an empty registry |
| SchemaRegistry.SchemaLoader.Defs | src/core/schema.js:323-326 | the definitions of exactly the registered ids |
| SchemaRegistry.SchemaLoader.GetSchema | src/core/schema.js:328-330 | the registered schema when the id is registered, and nothing otherwise |
| SchemaRegistry.SchemaLoader.AddSchema | src/core/schema.js:332-338 | `undefined`/`null` and a definition without `$id` are rejected with nothing changed; a definition whose `$id` is already registered fails with the validator's duplicate-id error and nothing changed; otherwise it is registered under its `$id` and every earlier entry is kept; it succeeds exactly when the `$id` is present and new |
| SchemaRegistry.SchemaLoader.RemoveSchema | src/core/schema.js:340-343 | the id is removed and nothing else changes |
| SchemaRegistry.SchemaLoader.Resolve | src/core/schema.js:375-398 | a non-string reference throws `Invalid schema reference id`; a registered id returns at once; an id no directory provides throws `Cannot find schema definition …`; these errors leave the registry unchanged; on success the id is registered and every id added is closed under its references; the registry only grows; the reference succeeds whenever it names an id of a `Resolvable` set |
| SchemaRegistry.SchemaLoader.Register | src/core/schema.js:392-394 | the module found is registered and its references are resolved in turn; this succeeds whenever those references name ids of a `Resolvable` set |
| SchemaRegistry.SchemaLoader.FindModule | src/core/schema.js:382-391 | the directory loop settles on the module of the first directory that has one for the id, is an object and carries that `$id`; a `null` module throws on reading `$id`; none found is reported as such |
| SchemaRegistry.SchemaLoader.Traverse | src/core/schema.js:350-364 | the handler runs on each reference of the object, and the scan stops at the first error; the scan succeeds whenever every reference names an id of a `Resolvable` set: one whose ids are registered or found by the directory search with references inside the set |
| SchemaRegistry.SchemaLoader.TraverseItems | src/core/schema.js:351-354 | the `for…of` over an array scans each element in turn: the registry only grows, and once every element is scanned all their references are registered and every id added is closed and from the library |
| SchemaRegistry.SchemaLoader.VisitItem | src/core/schema.js:352-353 | one element of the `for…of`: after it the registry only grew, every id added is closed and from the library, and the references of the elements so far are registered |
| SchemaRegistry.SchemaLoader.TraverseEntries | src/core/schema.js:355-362 | the `for…in` over an object visits each key in turn: the registry only grows, and once every key is visited all the object's references are registered and every id added is closed and from the library |
| SchemaRegistry.SchemaLoader.VisitEntry | src/core/schema.js:357-361 | one key of the `for…in`: a `$ref` value is resolved and so registered, any other value is scanned; the registry only grows and the references of the keys so far are registered |
| SchemaRegistry.SchemaLoader.Load | src/core/schema.js:366-402 | a root without `$id` fails; on success the root is registered, every added id came from the first library directory holding it, and every reference of every registered definition is registered; conversely it succeeds whenever the root has an `$id` and its references name ids of a `Resolvable` set, such as the ids reachable from the root when every reachable `$ref` is a string that some directory provides |
| SchemaRegistry.PendingShrinks | src/core/schema.js:379-394 | registering a new library id leaves one fewer to load, so loading terminates |
| SchemaRegistry.PendingMonotone | src/core/schema.js:379-394 | a growing registry never leaves more library ids to load |
| SchemaRegistry.Chain | src/core/schema.js:350-364 | two scans in a row only grow the registry, and every id they add came from the library |
| SchemaRegistry.ChainClosed | src/core/schema.js:350-364 | the references registered by two scans in a row stay registered, and the ids they added are closed |
| Migrations.ParseVersion | src/core/migrate.js:75 | a version that parses prints back as the same text |
| Migrations.ParseVersionText | src/core/migrate.js:75 | every version's text is valid and parses as that version |
| Migrations.ParseValue | src/core/migrate.js:75 | succeeds exactly on a string that is a valid version |
| Migrations.ParseValueText | src/core/migrate.js:75 | a version's text, given as a value, parses as that version |
| Migrations.VersionText | src/core/migrate.js:75 | the `MAJOR.MINOR.PATCH` text of a version; `ParseVersion` and `ParseVersionText` prove it inverse to parsing |
| Migrations.Insert | src/core/migrate.js:85 | inserting adds exactly one element and keeps an ascending list ascending |
| Migrations.Sort | src/core/migrate.js:85 | the result is ascending and a permutation of the input |
| Migrations.SortSorted | src/core/migrate.js:127 | sorting a list that is already ascending changes nothing |
| Migrations.SortMembers | src/core/migrate.js:85 | sorting keeps exactly the versions it is given |
| Migrations.LastIsGreatest | src/core/migrate.js:93-98 | the last of an ascending list is its greatest |
| Migrations.NotImplemented | src/core/migrate.js:32-34 | the base `upgrade` throws `Not implemented!` |
| Migrations.MigrateStep | src/core/migrate.js:44-48 | an `upgrade` error propagates; on success the result is stamped with the step's version |
| Migrations.CheckClass | src/core/migrate.js:72-79 | a non-Migration class is rejected with its message; an invalid version is rejected with its message; an accepted class stamps the version it returns |
| Migrations.Loaded | src/core/migrate.js:70-83 | the constructor's walk up to the first bad class: versions in walking order and a table; its shape is stated by `LoadedShape` and `LoadedFailure` |
| Migrations.LoadedShape | src/core/migrate.js:70-83 | a chain that loads gives one version per class, in walking order, and a table holding exactly those versions |
| Migrations.LoadedGrow | src/core/migrate.js:70-83 | one more class either fails the walk with its own error or appends its version and its table entry |
| Migrations.LoadedValid | src/core/migrate.js:70-85 | after a successful walk the sorted versions are ascending and each has its class in the table |
| Migrations.LoadedFailure | src/core/migrate.js:70-83 | a failed load's error is the error `CheckClass` gives for some class in the chain |
| Migrations.LoadedPrefixFailure | src/core/migrate.js:70-83 | once a prefix fails, the whole chain fails with the same error: the walk stops at the first bad class |
| Migrations.Select | src/core/migrate.js:126 | a version is selected exactly when it is recorded, after `from`, and at most `to`; selection keeps order |
| Migrations.Apply | src/core/migrate.js:128-135 | the `reduce` over no steps returns the config unchanged, with no callback calls |
| Migrations.ApplyVersion | src/core/migrate.js:128-135 | a run of steps that succeeds leaves the last step's version in the configuration |
| Migrations.ApplyReports | src/core/migrate.js:128-135 | with a callback, a successful run makes one call per step, passing the version before the step (the config's own for the first) and the step's version; without one, no calls |
| Migrations.ApplyCalls | src/core/migrate.js:128-135 | one callback call per step, the i-th carrying step i's version |
| Migrations.MigrateSelects | src/core/migrate.js:120-136 | the steps applied are exactly the recorded versions after the config's version and up to the target, ascending |
| Migrations.MigrateWith | src/core/migrate.js:120-136 | no recorded versions give the config back; otherwise the config's version is parsed (an invalid one fails) and the run goes on from it; stated by `MigrateSelects` and `MigrateIdempotent` |
| Migrations.MigrateFrom | src/core/migrate.js:122-127 | when no recorded version follows the config's, nothing is applied; otherwise the target is parsed and the range is applied |
| Migrations.MigrateRange | src/core/migrate.js:125-135 | the filter, the sort and the `reduce` over the selected versions; stated by `RangeSelects` and `RangeIdempotent` |
| Migrations.Target | src/core/migrate.js:122 | `toVersion` when it is truthy, otherwise the latest recorded version |
| Migrations.MigrateWithFrom | src/core/migrate.js:120-121 | with a valid config version, `migrate` proceeds from that version |
| Migrations.MigrateFromRange | src/core/migrate.js:122-127 | when some recorded version follows the config and the target parses, the run is the filtered range |
| Migrations.FromIdempotent | src/core/migrate.js:120-136 | migrating the result again to the same target applies nothing and calls nothing |
| Migrations.RangeSettles | src/core/migrate.js:125-136 | after a non-empty range is applied, migrating again to the same target applies nothing |
| Migrations.RangeSelects | src/core/migrate.js:125-127 | the sort after the filter changes nothing |
| Migrations.Latest | src/core/migrate.js:93-98 | the greatest recorded version |
| Migrations.MigrateIdempotent | src/core/migrate.js:120-136 | migrating a migrated configuration again to the same target applies nothing |
| Migrations.RangeIdempotent | src/core/migrate.js:125-135 | after a non-empty range is applied, no recorded version lies after the result's version and up to the target |
| Migrations.SelectAfterLast | src/core/migrate.js:126 | nothing is selected after the last selected version |
| Migrations.SelectNone | src/core/migrate.js:126 | with no version in the range, nothing is selected |
| Migrations.Migrator.Empty | src/core/migrate.js:63-69 | a migrator for an empty chain records no versions |
| Migrations.Migrator.Create | src/core/migrate.js:63-86 | succeeds exactly when the chain loads, and otherwise fails with the load error; on success the versions are ascending and each one has its class |
| Migrations.Migrator.GetLatestVersion | src/core/migrate.js:93-98 | null exactly for an empty chain; otherwise a recorded version that is at least every other one |
| Migrations.Migrator.IsOutdated | src/core/migrate.js:106-108 | null exactly for an empty chain; an invalid version throws; otherwise whether the version precedes the latest |
| Migrations.Migrator.Migrate | src/core/migrate.js:120-136 | an empty chain returns the config; a migrated config is a fixed point of migrating again to the same target |
| MigrationFixture.UpgradeInitial | fixture/migration/v1_v2.js:9-17 | the 1→2 upgrade of a config holding only its version adds `scalar: 1`, `vector: [1]` and `useless: true` after it |
| MigrationFixture.UpgradeAtV2 | fixture/migration/v2_v3.js:9-17 | the 2→3 upgrade sets `scalar: 2`, `vector: [1, 2]` in place and deletes `useless` |
| MigrationFixture.UpgradeToV2 | fixture/migration/v1_v2.js:9-17 | the copied config with `scalar`, `vector` and `useless` set; stated by `UpgradeInitial` |
| MigrationFixture.UpgradeToV3 | fixture/migration/v2_v3.js:9-17 | the copied config with `scalar` and `vector` set and `useless` deleted; stated by `UpgradeAtV2` |
| MigrationFixture.StepToV2 | src/core/migrate.js:44-48 | the 1→2 migration of `{version: '1.0.0'}` gives the version-2 configuration, stamped `2.0.0` |
| MigrationFixture.StepToV3 | src/core/migrate.js:44-48 | the 2→3 migration of that configuration gives the version-3 configuration, stamped `3.0.0` |
| MigrationFixture.LoadTwo | src/core/migrate.js:70-83 | a two-class chain whose classes pass the checks records both versions in walking order, and a table of both |
| MigrationFixture.ChainLoads | src/core/migrate.js:70-83 | the fixture chain (3 then 2) loads as versions 3, 2 and a table of both |
| MigrationFixture.VersionsSorted | src/core/migrate.js:85 | sorting the walked versions gives 2, 3 |
| MigrationFixture.LoadFixture | src/core/migrate.js:63-86 | constructing the migrator on the fixture chain records versions 2, 3 and their classes |
| MigrationFixture.FixtureQueries | src/core/migrate.js:93-108 | the fixture migrator reports `3.0.0` as latest, `1.0.0` as outdated and `3.0.0` as not outdated |
| MigrationFixture.ApplyOne | src/core/migrate.js:128-135 | the `reduce` over one step gives that step's result and one callback call with the config's version and the step's |
| MigrationFixture.ApplyTwo | src/core/migrate.js:128-135 | the `reduce` over two steps chains them and makes two callback calls, the second starting from the first step's version |
| MigrationFixture.FullSelect | src/core/migrate.js:126 | from `1.0.0` to `3.0.0` both recorded versions are selected |
| MigrationFixture.PartialSelect | src/core/migrate.js:126 | from `1.0.0` to `2.1.0` only version 2 is selected |
| MigrationFixture.Targets | src/core/migrate.js:122 | a `null` target means `3.0.0`; a `2.1.0` target is kept |
| MigrationFixture.FullUpgrade | src/core/migrate.js:120-136 | migrating `{version: '1.0.0'}` to the latest gives the version-3 configuration, with callbacks (1.0.0, 2.0.0) then (2.0.0, 3.0.0) |
| MigrationFixture.PartialUpgrade | src/core/migrate.js:120-136 | migrating it to `2.1.0` gives the version-2 configuration, with the one callback (1.0.0, 2.0.0) |
| TableOfContents.InsertLevel | src/view/widget/toc.jsx:45-46 | inserting keeps the levels distinct and ascending, and adds exactly the new level |
| TableOfContents.Levels | src/view/widget/toc.jsx:45-46 | the distinct heading levels, ascending, each one occurring in the headings |
| TableOfContents.SliceEnd | src/view/widget/toc.jsx:47 | `slice`'s end index for a non-negative end and for a negative end (counted from the end) |
| TableOfContents.KeptSmallest | src/view/widget/toc.jsx:45-47 | the kept levels are heading levels, ascending, `maxDepth` of them at most, and each is smaller than every dropped level |
| TableOfContents.Kept | src/view/widget/toc.jsx:45-47 | the distinct levels, ascending, cut by `slice(0, maxDepth)`; stated by `KeptSmallest` |
| TableOfContents.IndexOf | src/view/widget/toc.jsx:56 | the first index holding the level, or -1 exactly when the level is absent |
| TableOfContents.RankIsDepth | src/view/widget/toc.jsx:56 | a kept level's depth counts exactly the smaller kept levels |
| TableOfContents.Zeros | src/view/widget/toc.jsx:48 | one zero counter per kept level |
| TableOfContents.Frontier | src/view/widget/toc.jsx:58-72 | the length of the leading run of non-zero counters |
| TableOfContents.PathLessAt | src/view/widget/toc.jsx:71-77 | paths that first differ at a smaller key come first |
| TableOfContents.PathLessPrefix | src/view/widget/toc.jsx:71-77 | an ancestor comes before its descendants |
| TableOfContents.PathLessTrans | src/view/widget/toc.jsx:71-77 | document order is transitive |
| TableOfContents.PathLessIrreflexive | src/view/widget/toc.jsx:71-77 | no path comes before itself |
| TableOfContents.BumpAfter | src/view/widget/toc.jsx:58-70 | numbering a heading gives a path strictly after the previous heading's path |
| TableOfContents.BumpSettles | src/view/widget/toc.jsx:58-70 | after numbering, the counters are non-zero exactly up to the heading's depth |
| TableOfContents.BumpInside | src/view/widget/toc.jsx:58-70 | a heading no deeper than the previous one keeps its ancestors and raises its own counter |
| TableOfContents.BumpBeyond | src/view/widget/toc.jsx:58-70 | a deeper heading's path descends from the previous heading's path |
| TableOfContents.FrontierAt | src/view/widget/toc.jsx:58-70 | counters non-zero up to m and zero after it have frontier m |
| TableOfContents.Bump | src/view/widget/toc.jsx:58-70 | one heading's counter update: reset deeper counters, fill shallower zero ones with 1 and raise its own; stated by `BumpAfter`, `BumpSettles`, `BumpInside` and `BumpBeyond` |
| TableOfContents.WalkAll | src/view/widget/toc.jsx:50-81 | the counters keep one entry per kept level |
| TableOfContents.Visit | src/view/widget/toc.jsx:50-81 | one heading of the `forEach`: skipped when its level is not kept, otherwise numbered by `Bump` and stored with its ancestors; stated by `TracksBump`, `WalkOrdered`, `WalkEntries` and `WalkNodes` |
| TableOfContents.Assigned | src/view/widget/toc.jsx:50-81 | the path each kept heading receives, in document order; `WalkOrdered` proves the paths strictly increasing and `WalkHeadings` that they go to exactly the kept headings |
| TableOfContents.KeptHeadings | src/view/widget/toc.jsx:50-53 | the headings whose level is kept, in document order; stated by `WalkHeadings` |
| TableOfContents.WalkOrdered | src/view/widget/toc.jsx:50-81 | the paths given out go strictly forward in document order, and the counters hold the last one |
| TableOfContents.TracksBump | src/view/widget/toc.jsx:58-70 | numbering one more heading keeps the paths in document order and the counters on the last path |
| TableOfContents.OrderedFresh | src/view/widget/toc.jsx:71-80 | a path later in document order differs from every earlier path |
| TableOfContents.WalkHeadings | src/view/widget/toc.jsx:51-53 | the headings that get paths are exactly the kept ones, in order |
| TableOfContents.WalkEntries | src/view/widget/toc.jsx:78-80 | each kept heading's id, text and dotted index sit at its own path, and no heading overwrites another |
| TableOfContents.WalkNodes | src/view/widget/toc.jsx:71-77 | the object's nodes are exactly the numbered paths and their ancestors |
| TableOfContents.NoHeadings | src/view/widget/toc.jsx:42-83 | no headings give the empty object |
| TableOfContents.GetToc | src/view/widget/toc.jsx:42-83 | the counter array and the node walk build exactly the specified table of contents |
| TableOfContents.TocOf | src/view/widget/toc.jsx:42-83 | the table of contents of the headings; stated by `WalkOrdered`, `WalkEntries`, `WalkNodes` and `GetToc` |
| TableOfContents.StartsDeep | src/view/widget/toc.jsx:62-66 | headings h3, h2, h1, h2, h3 are numbered 1.1.1, 1.2, 2, 2.1, 2.1.1 |
| TableOfContents.DisjunctLevels | src/view/widget/toc.jsx:45-70 | headings h2 h2 h4 h4 h4 h2 are numbered 1, 2, 2.1, 2.2, 2.3, 3 |
| TableOfContents.WellNested | src/view/widget/toc.jsx:45-70 | well-nested h1 h2 h3 h3 h2 h3 h3 h1 h2 h2 h3 h3 headings are numbered 1, 1.1, 1.1.1, 1.1.2, 1.2, 1.2.1, 1.2.2, 2, 2.1, 2.2, 2.2.1, 2.2.2 |
| TableOfContents.IndexOfPath | src/view/widget/toc.jsx:80 | the index is the counters joined with dots |
| TableOfContents.BumpCounters | src/view/widget/toc.jsx:58-70 | the counter loop updates the array in place to exactly the bumped counters |
| TableOfContents.AddNodes | src/view/widget/toc.jsx:71-77 | the node walk adds exactly the path's ancestors, the path included, to the nodes |
| Tabs.Closing | src/hexo/tag/tabs.js:106-125 | a closing quote that is found lies after the start and is that quote character |
| Tabs.BareEnd | src/hexo/tag/tabs.js:137-147 | a bare token ends at the first space after it, or at the end of the input |
| Tabs.ThenEmpty | src/hexo/tag/tabs.js:79-157 | prepending no options changes nothing |
| Tabs.ThenThen | src/hexo/tag/tabs.js:79-157 | prepending options in two steps equals prepending them in one |
| Tabs.SpacesOnly | src/hexo/tag/tabs.js:90-101 | input of spaces only, empty included, has no options |
| Tabs.BareTokensNonEmpty | src/hexo/tag/tabs.js:137-147 | without quotes, every option is non-empty and has no space |
| Tabs.BareWord | src/hexo/tag/tabs.js:102-103 | a bare word is one option, even when it contains quotes |
| Tabs.BareEndAt | src/hexo/tag/tabs.js:137-147 | the end of a bare token is the first space, or the end of input |
| Tabs.Quoted | src/hexo/tag/tabs.js:94-136 | a quoted text is one option, spaces included and quotes excluded |
| Tabs.ClosingAt | src/hexo/tag/tabs.js:106-125 | the closing quote is found at the first unescaped quote |
| Tabs.EscapedQuote | src/hexo/tag/tabs.js:106-115 | `"a\"b"` is the one option `a\"b`, with the backslash kept |
| Tabs.Unterminated | src/hexo/tag/tabs.js:152-154 | an unclosed quote, or one closed only by a trailing backslash, is malformed |
| Tabs.UnclosedNone | src/hexo/tag/tabs.js:106-125 | with no quote and no escape ahead, no closing quote is found |
| Tabs.TextAfterQuote | src/hexo/tag/tabs.js:126-135 | a closing quote followed by anything but a space or the end is malformed |
| Tabs.SplitTabOptions | src/hexo/tag/tabs.js:79-157 | the state machine returns exactly the tokenizer's options, or its malformed-options error |
| Tabs.Tokens | src/hexo/tag/tabs.js:79-157 | the options from position k on, or the malformed-options error; stated by the lemmas above |
| Tabs.TokensQuoted | src/hexo/tag/tabs.js:94-136 | a closed quote followed by a space or the end gives the quoted text as one option, then the options after it |
| Tabs.Stuck | src/hexo/tag/tabs.js:152-154 | a state machine that ends in any state but end-of-line reports the input as malformed |
| Tabs.CollectClasses | src/hexo/tag/tabs.js:160-178 | the loop produces the classes of every option, in option order |
| Tabs.TagClasses | src/hexo/tag/tabs.js:160-178 | every option's classes, in option order |
| Tabs.OptionClasses | src/hexo/tag/tabs.js:164-177 | the classes one option adds; stated by `OptionClassesOf` |
| Tabs.OptionClassesOf | src/hexo/tag/tabs.js:164-177 | `align` and `size` add ` is-x`; `style:toggle-rounded` adds ` is-toggle` then ` is-x`; any other key adds nothing |
| Tabs.ReadTab | src/hexo/tag/tabs.js:189-212 | the loop builds the tab its options specify, starting from the generated id |
| Tabs.TabStep | src/hexo/tag/tabs.js:194-211 | one option's effect on the tab: `id`, `title` and `icon` set their field, `active` sets the flag, any other key changes nothing; stated by `TabStepFields` |
| Tabs.TabAfter | src/hexo/tag/tabs.js:194-211 | the tab after all its options, in order; stated by `TabFields` |
| Tabs.TabStepFields | src/hexo/tag/tabs.js:194-211 | one more option sets the field its key names and becomes the last value for that key; the other fields and keys keep theirs |
| Tabs.TabFields | src/hexo/tag/tabs.js:194-212 | id, title and icon come from the last option with that key, otherwise the field keeps its start value; the tab is active exactly when some `active` option is present |
| Tabs.ItemClass | src/hexo/tag/tabs.js:214 | the tab item is marked active exactly when the tab is active |
| Tabs.ContentClass | src/hexo/tag/tabs.js:220 | the content is hidden exactly when the tab is not active |
| TagOptions.ValueText | src/hexo/tag/message.js:57 | the value text never contains a colon, unless it is `undefined` |
| TagOptions.KeyValue | src/hexo/tag/message.js:57 | `key:value` with no colon in either splits back into that key and value |
| TagOptions.KeyOnly | src/hexo/tag/tabs.js:195 | an option without a colon is its own key, and its value prints as `undefined` |
| TagOptions.Key | src/hexo/tag/tabs.js:195 | the text before the first colon of the option; stated by `KeyValue` and `KeyOnly` |
| TagOptions.LastValue | src/hexo/tag/tabs.js:194-212 | the value of the last option with the key, read as the `switch` that overwrites on each; stated by `LastValueSome`, `LastValueAt` and `LastValueNone` |
| TagOptions.LastValueSome | src/hexo/tag/tabs.js:194-212 | there is a last value exactly when some option has the key, and it is the value of the last such option |
| TagOptions.LastValueAt | src/hexo/tag/tabs.js:194-212 | a found value comes from an option with that key, after which no option has the key |
| TagOptions.LastValueNone | src/hexo/tag/tabs.js:194-212 | when no value is found, no option has the key |
| Message.IconMarkup | src/hexo/tag/message.js:65-67 | the icon element is never empty |
| Message.OptionClasses | src/hexo/tag/message.js:59-64 | `size` and `color` add ` is-x`, any other key adds nothing; stated by `SizeAndColor` |
| Message.Header | src/hexo/tag/message.js:74-77 | the header is present exactly when an icon or a title is set |
| Message.ProcessTag | src/hexo/tag/message.js:50-85 | the option loop and the template give exactly the specified article for the box its options build |
| Message.Article | src/hexo/tag/message.js:79-84 | the article template around the header and the rendered content; `ProcessTag` is proved to build it |
| Message.Step | src/hexo/tag/message.js:56-72 | one option's effect on the box: `icon` and `title` replace their field, any other option appends its classes; stated by `LastWins` and `AllClassesAppend` |
| Message.BoxAfter | src/hexo/tag/message.js:56-72 | the box after all the options, from empty strings; stated by `ClassesInOrder`, `LastWins`, `HeaderShown` and `SizeAndColor` |
| Message.ClassesInOrder | src/hexo/tag/message.js:56-64 | the classes are those of every option, in option order |
| Message.AllClassesAppend | src/hexo/tag/message.js:56-64 | one more option appends its classes at the end |
| Message.LastWins | src/hexo/tag/message.js:65-70 | the icon comes from the last `icon` option; the title is the last `title` value; both are empty when no option sets them |
| Message.HeaderShown | src/hexo/tag/message.js:74-77 | a header appears exactly when some option names an icon, or the last title is non-empty |
| Message.SizeAndColor | src/hexo/tag/message.js:59-64 | `size` and `color` options add their classes in option order and set nothing else |
| Meta.UnitLength | src/view/misc/meta.jsx:42 | one unit of the pattern is at most two characters |
| Meta.RunLength | src/view/misc/meta.jsx:42 | a match of the pattern never runs past the input |
| Meta.Exec | src/view/misc/meta.jsx:17 | a match found starts at or after `lastIndex` and is non-empty |
| Meta.Split | src/view/misc/meta.jsx:14-21 | the `exec` loop collects exactly the specified runs |
| Meta.ExecRuns | src/view/misc/meta.jsx:14-21 | the runs are the successive `exec` matches, each search resuming where the last match ended |
| Meta.Runs | src/view/misc/meta.jsx:14-21 | the pieces the pattern matches, in order; stated by `ExecRuns`, `RunsEscaped` and `RunsMaximal` |
| Meta.RunsEscaped | src/view/misc/meta.jsx:42-44 | every piece is non-empty and has no unescaped separator |
| Meta.RunEscaped | src/view/misc/meta.jsx:42-44 | a single match contains no unescaped separator |
| Meta.RunsMaximal | src/view/misc/meta.jsx:42-44 | each match is as long as the pattern allows |
| Meta.PlainRunLength | src/view/misc/meta.jsx:42 | text with no separator and no backslash matches as a whole |
| Meta.PlainOne | src/view/misc/meta.jsx:42-44 | such text is a single piece |
| Meta.Separated | src/view/misc/meta.jsx:42-44 | a separator splits the input into the text before it and the pieces after it |
| Meta.SkipSeparator | src/view/misc/meta.jsx:42-44 | separators between pieces are skipped |
| Meta.EscapedSeparator | src/view/misc/meta.jsx:42-44 | a backslash-escaped separator does not split, and the backslash is kept |
| Meta.Unquote | src/view/misc/meta.jsx:10-11 | the text is unchanged, or it is what lies strictly inside one pair of the quotes |
| Meta.TrimValue | src/view/misc/meta.jsx:7-12 | trim, then strip one pair of double quotes, then one pair of single quotes; stated by `TrimBare` and the quoted lemmas |
| Meta.TrimBare | src/view/misc/meta.jsx:7-12 | unquoted text is trimmed and nothing more |
| Meta.TrimDoubleQuoted | src/view/misc/meta.jsx:7-12 | a double-quoted single-line value loses its surrounding whitespace and its quotes |
| Meta.TrimSingleQuoted | src/view/misc/meta.jsx:7-12 | a single-quoted single-line value loses its surrounding whitespace and its quotes |
| Meta.Property | src/view/misc/meta.jsx:43-49 | a property exists exactly when `=` splits it into at least two pieces; it holds the first two pieces, trimmed |
| Meta.PropertyOf | src/view/misc/meta.jsx:43-49 | `name="value"` with plain name and value is the property (name, value) |
| Meta.LaterWins | src/view/misc/meta.jsx:53-55 | a name's attribute is the value of its last occurrence |
| Meta.Fold | src/view/misc/meta.jsx:53-55 | the attributes written in order, a later name replacing an earlier one; stated by `LaterWins` |
| Meta.Attributes | src/view/misc/meta.jsx:42-55 | the attributes of one entry: its `;` pieces mapped to properties and folded; stated by `TwoProperties`, and by `LaterWins` through `Fold` |
| Meta.Properties | src/view/misc/meta.jsx:43-49 | one result per piece, in order: the piece's property, or nothing when it forms none; `Fold` then skips the nothings, as the `filter` does |
| Meta.Strings | src/view/misc/meta.jsx:40 | exactly the string elements are kept |
| Meta.Entries | src/view/misc/meta.jsx:35-40 | a missing `meta` gives none, a string gives itself, an array gives its strings, and anything else gives none |
| Meta.Tags | src/view/misc/meta.jsx:39-57 | one attribute list per string entry |
| Meta.TwoProperties | src/view/misc/meta.jsx:28-30 | the documented `name="…";content="…"` entry yields exactly those two attributes, in order |
| Meta.TwoPieces | src/view/misc/meta.jsx:42-44 | the documented two-property entry splits on `;` into its two `name="value"` pieces |
| Meta.EntryShape | src/view/misc/meta.jsx:28-30 | the documented entry text is the two pieces joined by `;` |
| Meta.PlainProperty | src/view/misc/meta.jsx:42-44 | a `name="value"` piece of separator-free name and value contains no separator |
| Meta.FoldTwo | src/view/misc/meta.jsx:53-55 | two properties with different names are both kept, in order |
| Meta.Inside | src/view/misc/meta.jsx:10-11 | a value surrounded by one character on each side is what lies strictly inside |
| ClassNames.ItemTexts | src/util/classname.js:20 | what `join` prints for each element, in order |
| ClassNames.Active | src/util/classname.js:23-24 | the filter keeps at most the keys it is given |
| ClassNames.ClassName | src/util/classname.js:15-28 | a string is returned as it is; an array's elements are joined by spaces; an object's truthy keys are joined by spaces; `null` throws a TypeError; anything else throws `Cannot process class name …`; it fails exactly on a non-string that is not object-like |
| ClassNames.Rejected | src/util/classname.js:27 | the message `Cannot process class name ` followed by the input's text; `ClassName` throws it for `undefined`, booleans and numbers |
| ClassNames.ActiveMembers | src/util/classname.js:23-25 | a key is kept exactly when it is listed and its value is truthy |
| ClassNames.ActiveOrder | src/util/classname.js:23-25 | the filter keeps key order |
| ClassNames.ActiveHead | src/util/classname.js:23-25 | the filter's result is the first key's contribution followed by the rest's |
| ClassNames.ListWords | src/util/classname.js:19-21 | a list of space-free class names joins, and splits back on spaces into the same list |
| ClassNames.MapWords | src/util/classname.js:22-26 | an object's active class names are recovered by splitting the result on spaces |
| Locals.LayoutConfig | src/hexo/filter/locals.js:43-53 | the layered config has no key twice |
| Locals.LoadLayoutConfig | src/hexo/filter/locals.js:43-53 | the loop assigns every existing document, in order, onto an empty object |
| Locals.ThemeFileWins | src/hexo/filter/locals.js:45-51 | the theme-directory file overrides the site-directory file key by key; a missing file adds nothing |
| Locals.StripConfig | src/hexo/filter/locals.js:60-71 | no key twice; a key is copied exactly when the source has it and it is not underscored, reserved or function-valued |
| Locals.StripValues | src/hexo/filter/locals.js:60-71 | each copied key keeps its source value, and every other key is absent |
| Locals.FrontMatter | src/hexo/filter/locals.js:95-99 | the front-matter copied has no key twice |
| Locals.PageField | src/hexo/filter/locals.js:90-97 | `page[key]` on a truthy page: the page's own property, or `undefined`; stated by `LayoutNameCases` and `LocalsFilter.FrontMatterOmits` |
| Locals.LayoutName | src/hexo/filter/locals.js:90 | the layout whose config `page.layout in ALTERNATIVE_CONFIG` selects; stated by `LayoutNameCases` |
| Locals.LayoutNameCases | src/hexo/filter/locals.js:90-92 | a layout config is picked exactly when `layout` prints as `post` or `page`, a string layout picks its own name, and a page without a layout or not an object picks none |
| Locals.LocalsFilter.constructor | src/hexo/filter/locals.js:38-58 | the reserved keys are stored, and both layout configs are loaded once at registration |
| Locals.LocalsFilter.Apply | src/hexo/filter/locals.js:87-100 | the page's config becomes the layered config; theme, page and function keys are unchanged |
| Locals.LocalsFilter.Layered | src/hexo/filter/locals.js:87-100 | a falsy page keeps the config; otherwise site, theme, layout and front-matter layers assigned in that order; stated by `Precedence` |
| Locals.Layers | src/hexo/filter/locals.js:89-99 | key by key, four `Object.assign` layers read as front-matter, else layout, else theme, else site |
| Locals.LocalsFilter.NoPage | src/hexo/filter/locals.js:87-88 | without a page the config is left as it is |
| Locals.LocalsFilter.FrontMatterOmits | src/hexo/filter/locals.js:60-71 | an underscored, function-valued or reserved key is not among the front-matter keys copied |
| Locals.LocalsFilter.Precedence | src/hexo/filter/locals.js:87-100 | key by key, the front-matter wins over the layout config, which wins over the theme config, which wins over the site config |
| Locals.LocalsFilter.FrontMatterStripped | src/hexo/filter/locals.js:60-71 | reserved, underscored and function-valued front-matter keys never reach the config |
| Locals.PageLocals.constructor | src/hexo/filter/locals.js:73 | the locals hold the given config, theme, page and function keys |
| WebApp.SizeEntries | src/view/misc/web_app.jsx:31 | one entry per size, in order, each with the icon's source |
| WebApp.IconEntries | src/view/misc/web_app.jsx:28-34 | an icon without a truthy `src` and a truthy `sizes` gives no entries |
| WebApp.TouchIcons | src/view/misc/web_app.jsx:26-37 | a non-array `icons` gives no entries |
| WebApp.SizesSplit | src/view/misc/web_app.jsx:30-31 | each space-separated size of an icon becomes its own entry, in order, with that icon's source |
| WebApp.EntriesFromIcons | src/view/misc/web_app.jsx:26-37 | every entry comes from an icon in the list and carries that icon's truthy source |
| WebApp.ListEntries | src/view/misc/web_app.jsx:28-36 | the entries of every icon, concatenated in order, the first error stopping it; stated by `SizesSplit` and `EntriesFromIcons` |
| WebApp.TileIcon | src/view/misc/web_app.jsx:80-91 | a non-array `icons` gives the favicon |
| WebApp.IsTile | src/view/misc/web_app.jsx:82 | a string `sizes` is tested for `144x144` ignoring case; `undefined`/`null` or a non-string throws; stated by `UpperCaseTile` |
| WebApp.FindTile | src/view/misc/web_app.jsx:82-84 | the first icon the test accepts, or none; a throwing test stops the search; stated by `FirstTile` |
| WebApp.FindStops | src/view/misc/web_app.jsx:82 | the search stops at an icon the test accepts |
| WebApp.FindSkips | src/view/misc/web_app.jsx:82 | an icon the test rejects without throwing is passed over |
| WebApp.FindFirstFrom | src/view/misc/web_app.jsx:82 | searching from any point at or before the first accepted icon finds it |
| WebApp.FindFirstTile | src/view/misc/web_app.jsx:82 | the search finds the first icon the test accepts when none before it throws |
| WebApp.FirstTile | src/view/misc/web_app.jsx:82-84 | the first icon the test accepts supplies the tile image, or the favicon if its source is falsy |
| WebApp.NoTile | src/view/misc/web_app.jsx:85-91 | with no tile icon, the first icon's source is used, or the favicon, also when there are no icons |
| WebApp.UpperCaseTile | src/view/misc/web_app.jsx:82 | the tile test ignores letter case |
| Archives.Pattern | src/view/widget/archives.jsx:113 | a non-empty `format` wins; otherwise `MMMM YYYY` for monthly grouping and `YYYY` for anything else |
| Archives.GroupPosts | src/view/widget/archives.jsx:97-126 | the `forEach` with its `length` counter builds exactly the specified groups |
| Archives.GroupsOf | src/view/widget/archives.jsx:116-125 | the groups of neighbouring posts with the same printed date; stated by `GroupsTotal`, `GroupsRuns`, `GroupsExpand` and `GroupsStart` |
| Archives.Names | src/view/widget/archives.jsx:113 | each post's printed date, in order |
| Archives.GroupsTotal | src/view/widget/archives.jsx:97-126 | the counts add up to the number of posts; there are groups exactly when there are posts |
| Archives.GroupsRuns | src/view/widget/archives.jsx:116-125 | every count is at least one, and neighbouring groups print differently |
| Archives.GroupsExpand | src/view/widget/archives.jsx:116-125 | writing each group's name `count` times gives back the posts' names in order |
| Archives.RunsPush | src/view/widget/archives.jsx:116-125 | one more post keeps every count positive and neighbouring names distinct |
| Archives.ExpandPush | src/view/widget/archives.jsx:116-125 | one more post adds its name once at the end of the expansion |
| Archives.Push | src/view/widget/archives.jsx:114-125 | one post: a new group when the last group's name differs or there is none, else one more in the last count; stated by `RunsPush`, `ExpandPush` and `PushPrefix` |
| Archives.PushPrefix | src/view/widget/archives.jsx:114-125 | one more post keeps every group before the last one, and a new group starts with count one |
| Archives.GroupsStart | src/view/widget/archives.jsx:117-122 | each group's year and month are those of its first post |
| Archives.TotalPrefix | src/view/widget/archives.jsx:116-125 | a prefix of the groups stands for no more posts than all of them |
| Archives.MonthTwoDigits | src/view/widget/archives.jsx:131-134 | a month from 1 to 12 is written with exactly two digits that read back as the month |
| Archives.MonthText | src/view/widget/archives.jsx:132-133 | the month with a `0` before a one-digit month; stated by `MonthTwoDigits` |
| Archives.Link | src/view/widget/archives.jsx:128-137 | the archive directory, the year and a slash, then for monthly grouping the two-digit month and a slash |
| Archives.ItemsOf | src/view/widget/archives.jsx:139-144 | one item per group, in order, with its name, count and link |
| Archives.EntriesOf | src/view/widget/archives.jsx:100-113 | one entry per post, in order, with its date printed in the pattern |
| Archives.Transform | src/view/widget/archives.jsx:85-148 | no posts give `null`; otherwise the items of the groups of the posts' printed dates |

## Left out

- Ajv validation (`Schema.validate`, `SchemaLoader.compileValidator`) is not modelled. It calls
  an external JSON-Schema validator.
- `DefaultValue.toYaml` is not modelled: it is YAML serialisation by an external library.
  The commented form it serialises is modelled.
- SchemaRegistry.SchemaLoader.AddSchema: of the validator's own checks only the duplicate-id
  one is modelled, with the validator's message. Its meta-schema validation, its id
  normalisation and its errors for a non-string id are not: the validator is an external
  library.
- `require` and `path.join` in `SchemaLoader.load` are replaced by a finite library map from
  (directory, reference) to module value.
  - SchemaRegistry.SchemaLoader.Load: the source pushes the built-in directory onto the
    caller's own array (src/core/schema.js:370). The model searches `dirs + [BUILTIN_DIR]` and
    leaves the caller's list as it was.
  - A single directory in place of a list is not modelled: the directories are always a list.
  - The order in which Node resolves modules is not modelled.
- The `JSON.stringify` text in error messages is `ToStr` of the value.
  Error messages raised by the engine itself are not modelled word for word: the model records
  only that a TypeError is raised.
- Inherited prototype properties are not modelled. Objects are their own entries.
  Because of this, `page.layout in ALTERNATIVE_CONFIG` answers differently from `LayoutName`
  for inherited names such as `toString`. The layered config is the same all the same:
  `Object.assign` of the inherited function or of `Object.prototype` copies no own enumerable
  key.
- `Object.keys` places integer-like keys first. The model keeps insertion order.
- Aliasing of shared sub-objects is not modelled. The code clones at the points where it would
  matter, and nested wrappers are values here.
- Schemas.GetDefault: the call depth is bounded by a `fuel` parameter. Running out of fuel
  stands for the stack overflow of a cyclic `$ref` chain, or of a falsy sub-definition
  restarting at the root. No depth limit of a real engine is modelled.
- Numbers are unbounded integers. Floating point and `NaN` are not modelled.
- Versions are `MAJOR.MINOR.PATCH` of Semantic Versioning 2.0.0 (section 2). `semver`'s
  prerelease and build forms and its loose parsing are not modelled.
  - Migrations.ParseVersion: strict `semver.valid` also accepts a leading `v` and surrounding
    whitespace, which it trims (`v1.0.0`, ` 1.0.0 `); the model rejects these. (A leading `=` is
    accepted only by loose parsing, which is not modelled.)
- Migrations.Apply: the source calls the callback after each step, so when a later step
  throws, the callbacks of the earlier steps have already run (src/core/migrate.js:131-133).
  The model returns only the `Failure`, without the calls made before it.
- Migrations.Migrator.Create: the `head` chain is given as the finite list of classes the
  walk meets. A cyclic chain, on which the source never terminates, is not modelled.
- JSX rendering is not modelled.
  - The meta component's `<meta>` elements are given as attribute lists.
  - The web-app and archive components produce data, not markup.
- Markdown rendering (`hexo.render.renderSync`) is represented by an uninterpreted function
  parameter `render`.
- The tabs tag's content regular expression, which finds the `<!-- tab -->` blocks, is not
  modelled: each tab's option string is given directly. The final HTML concatenation of the
  tabs is not modelled either. Modelled instead are the option tokenizer, the classes loop,
  each tab's option loop, and the active and hidden classes.
- The random tab id (`Date.now()` and `Math.random()`) is a `generatedId` parameter.
- `getTocObj` (Hexo's heading extraction) is not modelled: the headings are its output,
  given as a list.
- Dates, time zones and moment locales in the archive widget are not modelled.
  - Each post carries the year and month its date has after the time zone is applied.
  - The printed name is computed by a `format` parameter.
  - The posts' sort by date is not modelled; posts arrive already sorted.
  - `url_for` is a function parameter.
  - The `title` (`_p`) and `showCount` results are not modelled.
  - The `group_by` default is the caller's to supply.
- The locals filter's helper binding (`locals.helper`, `__`, `_p`) is not modelled. It binds
  functions and does not change the configuration.
- File existence, file reading and YAML parsing in `loadLayoutConfig` are not modelled: each
  file is given as its parsed document, or `None` when it is missing.
- Which front-matter values are functions is given as a set of keys, because values here are
  never functions.
- Locals.LoadLayoutConfig: when a layout file's document is a bare string, `Object.assign`
  copies its characters as indexed keys. The model copies no keys for it.
- WebApp.IsTile: `toLowerCase` is modelled for ASCII letters only.

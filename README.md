# Ceylon compiler model: the `Package` container

This project models the `Package` class of the Ceylon compiler's model
(`com.redhat.ceylon.compiler.model.Package`). A package is a scope: it has
a dotted name, stored as a list of name segments; the module that owns it; and a
list of member structures. It is the root of the scope chain (it has no container),
and it can print its name as one dotted string.

Two modules:

- `DottedNames` (`dotted_names.dfy`) holds pure functions on qualified names.
  `Join(segs, sep)` puts exactly one separator between consecutive segments. `Split(s, sep)`
  cuts a string at every separator and keeps empty pieces. The lemmas say:
  - the length of the joined string;
  - where each segment lies in it (`JoinLayout`, `OffsetStep`);
  - the two round trips: `Split(Join(segs)) == segs` for well-formed names, and
    `Join(Split(s)) == s` for every string;
  - `Join` is injective on well-formed names.
- `CompilerModel` (`package.dfy`) holds the class `Package`, with the fields
  `name`, `pkgModule` and `members`. Its setters are methods with
  `modifies this` that say what changed and what did not. The getters are
  functions that read `this`: in a given state, every call returns the same
  value. `GetNameAsString` keeps the source's index loop. Its loop invariant
  ties the partial result to `Join`.
  `Module` and `Structure` are empty classes: the model uses them only as
  references.

Modelling decisions:

- The Java field `module` is called `pkgModule`, because `module` is a Dafny keyword.
- `name` is `Option<seq<string>>`. The Java field starts as `null`, and
  `setName(null)` is legal. `pkgModule` is a nullable `Module?`. It also starts
  as `null`.
- `getNameAsString` and `toString` dereference `name` without a check
  (Package.java:39). In the model they require `name.Some?`.
- Package.java does not require the segment list to be non-empty: an empty list gives `""`.
  The model follows the code.

## Model

| member | source | states |
|---|---|---|
| `CompilerModel.Package.constructor` | src/com/redhat/ceylon/compiler/model/Package.java:6-9 | a new package has no name and no module, and its member list is empty |
| `CompilerModel.Package.SetModule` | src/com/redhat/ceylon/compiler/model/Package.java:11-17 | afterwards `GetModule()` returns the given module; the name and the members are unchanged |
| `CompilerModel.Package.SetName` | src/com/redhat/ceylon/compiler/model/Package.java:19-25 | afterwards `GetName()` returns the given name; the module and the members are unchanged |
| `CompilerModel.Package.GetModule` | src/com/redhat/ceylon/compiler/model/Package.java:11-13 | a field read, with no contract of its own; the constructor's and SetModule's ensures say what it returns |
| `CompilerModel.Package.GetName` | src/com/redhat/ceylon/compiler/model/Package.java:19-21 | a field read, with no contract of its own; the constructor's and SetName's ensures say what it returns |
| `CompilerModel.Package.GetMembers` | src/com/redhat/ceylon/compiler/model/Package.java:27-30 | a field read, with no contract of its own; the constructor's ensures and NamePackage's say what it returns; the list aliasing it does in Java is under "## Left out" |
| `CompilerModel.Package.GetContainer` | src/com/redhat/ceylon/compiler/model/Package.java:32-35 | every package, whatever its state, has no container: it is a root of the scope chain |
| `CompilerModel.Package.GetNameAsString` | src/com/redhat/ceylon/compiler/model/Package.java:37-44 | the result is the segments joined by '.'. An empty name gives "" and a single segment gives itself. The length is the sum of the segment lengths plus max(0, n-1). Splitting the result on '.' gives back any non-empty name whose segments contain no '.'. Nothing is modified |
| `CompilerModel.Package.ToString` | src/com/redhat/ceylon/compiler/model/Package.java:46-49 | the result is "Package[" + the joined name + "]". The name between the brackets splits back into the segments of a well-formed name. Nothing is modified |
| `CompilerModel.QualifiedNameExample` | src/com/redhat/ceylon/compiler/model/Package.java:37-44 | the segments ["a","b","c"] join to "a.b.c", and "a.b.c" splits back into them |
| `CompilerModel.NamePackage` | src/com/redhat/ceylon/compiler/model/Package.java:9-44 | a new package named ["a","b","c"] and then given a module prints "a.b.c". It keeps that name and module, and its member list stays empty |
| `DottedNames.Join` | src/com/redhat/ceylon/compiler/model/Package.java:39-42 | the joined length is the sum of the segment lengths plus max(0, n-1) |
| `DottedNames.JoinLayout` | src/com/redhat/ceylon/compiler/model/Package.java:38-43 | each segment k appears unchanged at `Offset(segs, k)` in the joined string. It is followed by a '.' unless it is the last; the last segment ends the string |
| `DottedNames.OffsetStep` | src/com/redhat/ceylon/compiler/model/Package.java:40-41 | consecutive segments start exactly one separator apart, so exactly one '.' lies between them |
| `DottedNames.JoinSnoc` | src/com/redhat/ceylon/compiler/model/Package.java:40-41 | appending a segment to a non-empty name adds one '.' and then the segment: one iteration of the join loop |
| `DottedNames.TotalLengthAppend` | src/com/redhat/ceylon/compiler/model/Package.java:39-42 | the summed segment length is additive over concatenation of segment lists |
| `DottedNames.Split` | src/com/redhat/ceylon/compiler/model/Package.java:37-44 | splitting yields one more piece than there are separators, and no piece contains the separator |
| `DottedNames.SplitWithoutSeparator` | src/com/redhat/ceylon/compiler/model/Package.java:40 | a segment without '.' splits into just itself |
| `DottedNames.SplitAfterPiece` | src/com/redhat/ceylon/compiler/model/Package.java:40-41 | a separator-free segment followed by '.' splits off as the first piece |
| `DottedNames.SplitJoin` | src/com/redhat/ceylon/compiler/model/Package.java:37-44 | round trip: splitting the joined form of a non-empty, separator-free name reproduces the name |
| `DottedNames.JoinSplit` | src/com/redhat/ceylon/compiler/model/Package.java:37-44 | round trip the other way: joining the pieces of any string gives the string back |
| `DottedNames.JoinInjective` | src/com/redhat/ceylon/compiler/model/Package.java:37-44 | two distinct well-formed names never print as the same dotted string |

## Left out

- The `Scope` interface's lookup operations (member lookup, overload resolution, inheritance queries, proximity matching, qualified names): `Package` implements none of them in the code modelled here. The interface declares them without any behaviour.
- `Module` and `Structure`: their classes are not part of this model. They are empty reference types here.
- Aliasing of Java lists: `setName` stores the caller's list, and `getMembers` returns the package's own mutable list. The model stores and returns sequence values, so later changes made through such a shared list are not captured. `getMembers` returns the same list object on every call; the model only gives the same value.
- `CompilerModel.Package.GetNameAsString`: requires that the name is set. The Java code throws a `NullPointerException` at Package.java:39 when it is not; the model does not model that exception.
- `CompilerModel.Package.ToString`: requires that the name is set, for the same reason.
- Null elements in the name list: Java's `StringBuilder.append` writes such an element as the text "null". Segments in the model are always strings.
- Java's 32-bit bounds: the bound on list sizes and string lengths, and the `int` loop index. Integers in the model are unbounded.
- `StringBuilder` internals. Strings are `seq<char>`, with no character encoding.

# error-derive, modelled in Dafny

The crate derives boilerplate for error enums whose variants each wrap one
inner error: `ErrorFrom!` emits one `From<Inner>` impl per variant, and
`Error!` emits a `Display` impl that is meant to print `desc (inner)` (the
code as written misprints descriptions holding braces, see Findings) and an
`Error` impl
whose `description()` is the fixed `desc` and whose `cause()` is always the
wrapped value. Both macros hand the enum body to a shared collector in
`enum_derive_util!`. The collector walks the body left to right with
recursive `macro_rules!` arms and threads an accumulator. It skips
attributes, records each `Name(Type),` variant and fails on any other
variant shape.

Files:

- `wrappers.dfy`: `Option` and the expansion outcome `Result`, which is `Success` or `Failure`.
- `enum_body.dfy`: an enum body as a sequence of items. An item is an attribute, a comma, or a variant declaration (unit, tuple or struct-like).
- `util.dfy`: the `enum_derive_util!` arms (src/util.rs).
  - Both collectors are one walk, `Walk`, parameterised by the variant shape it accepts.
  - `Walk` is proved equal to an independent, position-by-position description of the accepted bodies (`Conforms`), together with the list they yield (`Entries`).
- `format_args.dfy`: the part of Rust's format strings that the generated `Display` uses: `{{`, `}}` and `{}`.
- `error_derive.dfy`: the `ErrorFrom!` and `Error!` macros (src/lib.rs).
  - Entry arms, callbacks and the `@expand` templates.
  - The generated impls are data, plus the behaviour of `from`, `fmt`, `description` and `cause`.

The collectors' explicit `const _error` arms only match when the
collector's fixed argument is a bare name `($name:ident)`. Both macros in
src/lib.rs pass a callback `(Mac { ... })`, so with them a non-conforming
variant reaches no arm, and rustc reports that no rule matched instead of
the descriptive message. The model follows the code. Both routes are
`Failure`, and `Target.Named` models the bare-name form.

## Model

| member | source | states |
|---|---|---|
| `EnumDeriveUtil.HelperIdentities` | src/util.rs:9-12 | `@as_expr` is the identity; `@as_item` re-emits a non-empty item list and fails on an empty one; `@first_expr` yields the head of a non-empty list and fails on an empty one |
| `EnumDeriveUtil.WalkCharacterised` | src/util.rs:51-96 | the arm-by-arm walk (shared by both collectors) succeeds exactly when a callback was given and every position of the body is well placed; the callback then receives the accumulator followed by the accepted variants in declaration order, and otherwise the walk fails |
| `EnumDeriveUtil.CollectUnary` | src/util.rs:51-59 | unary collection succeeds iff the target is a callback and the body conforms; the callback receives exactly the collected `Name(Type)` list, with the same callback arguments it was given |
| `EnumDeriveUtil.UnaryCommasOnly` | src/util.rs:51-59 | on input made only of commas (any number, zero included) the callback receives the accumulator unchanged |
| `EnumDeriveUtil.UnaryAttributeSkipped` | src/util.rs:61-69 | a leading `#[attr]` is consumed and the walk goes on with the accumulator unchanged |
| `EnumDeriveUtil.UnaryDeclaredRoundTrip` | src/util.rs:71-79 | collecting `Name(Type),` for each variant, followed by any number of commas, gives back exactly that list, in declaration order, of the same length |
| `EnumDeriveUtil.UnaryPubStripped` | src/util.rs:81-89 | stripping `pub` from every field changes neither acceptance nor the collected list, so `Name(pub Type),` yields the same entry as `Name(Type),` |
| `EnumDeriveUtil.UnaryNonTupleRejected` | src/util.rs:91-96 | a unit variant (with or without a discriminant), a struct-like variant, or a tuple variant of zero or several fields anywhere in the body makes collection fail |
| `EnumDeriveUtil.UnaryCountsVariants` | src/util.rs:71-89 | on success every declared variant was a single-field tuple, and the callback receives one entry per declared variant |
| `EnumDeriveUtil.UnaryNamedNeverSucceeds` | src/util.rs:91-96 | with a bare enum name as fixed argument, unary collection never reaches a callback |
| `EnumDeriveUtil.CollectUnitary` | src/util.rs:14-22 | unitary collection succeeds iff the target is a callback and the body conforms (unit variants only); the callback receives exactly the collected names |
| `EnumDeriveUtil.UnitaryAttributeSkipped` | src/util.rs:24-32 | a leading `#[attr]` is consumed and the names collected so far are unchanged |
| `EnumDeriveUtil.UnitaryDeclaredRoundTrip` | src/util.rs:34-42 | collecting `Name,` and `Name = expr,` declarations yields exactly their names, in order, with the discriminants dropped |
| `EnumDeriveUtil.UnitaryNonUnitRejected` | src/util.rs:44-49 | a tuple or struct-like variant anywhere in the body makes unitary collection fail |
| `FormatArgs.RenderEscaped` | src/lib.rs:112-113 | a text with its braces doubled prints verbatim in front of whatever the rest of the format string prints |
| `FormatArgs.RenderPlain` | src/lib.rs:112-113 | a text without braces prints verbatim in front of the rest of the format string |
| `FormatArgs.RenderParenthesised` | src/lib.rs:112-113 | the template `"{} ({})"` prints `a (b)` for any two arguments |
| `ErrorDerive.ErrorFrom` | src/lib.rs:95-101 | `ErrorFrom!` succeeds iff the header is `[pub]* enum Name` without generics and the body with a `,` appended conforms; it then emits one `From` impl per declared variant |
| `ErrorDerive.ErrorFromImpls` | src/lib.rs:85-93 | the emitted impls are, in order, `From<Type> for Name` building `Name::Var` for each collected `Var(Type)` |
| `ErrorDerive.ErrorFromCoversValues` | src/lib.rs:87-91 | every value `Name::Var(v)` of the enum is `from(v)` of an emitted impl whose source type is `v`'s type |
| `ErrorDerive.ErrorFromImplsSound` | src/lib.rs:87-91 | `from(v)` of every emitted impl is a value of the enum: the enum has a variant of that name wrapping that type |
| `ErrorDerive.ErrorFromDeclared` | src/lib.rs:95-101 | an enum declared as `Name(Type)` variants gets exactly one impl per variant in declaration order, with or without a comma after the last variant |
| `ErrorDerive.Error` | src/lib.rs:134-140 | `Error!` succeeds iff the header matches, the body conforms and there is at least one variant; the `cause` match then has one arm per variant |
| `ErrorDerive.ErrorMethods` | src/lib.rs:107-132 | for every value of the enum the match arms cover its variant, `description()` is the fixed `desc`, `cause()` is `Some(inner)` (never `None`), and the intended `Display` prints `desc (inner)`; the as-written `Display` prints the same when `desc` has no braces (see Findings) |
| `ErrorDerive.EmptyEnum` | src/lib.rs:85-116 | on an enum without variants `ErrorFrom!` emits no impl (its repetition is `*`) while `Error!` fails (its `Display` repetition is `+`) |
| `ErrorDerive.DisplayAsWrittenAgrees` | src/lib.rs:112-113 | with a brace-free description the as-written `Display` equals the intended one, `desc (inner)` |
| `ErrorDerive.DisplayAsWrittenEscaped` | src/lib.rs:112-113 | the as-written `Display` prints any description verbatim, `desc (inner)`, once the description's braces are doubled, and then equals the intended `Display` |
| `ErrorDerive.PlaceholderDescriptionRejected` | src/lib.rs:112-113 | the description `"{}"` turns the as-written format string into two placeholders for one argument, which the compiler rejects; the intended template prints `{} (inner)` |
| `ErrorDerive.EscapedDescriptionMisprinted` | src/lib.rs:112-113 | with the description `"{{"` the as-written `Display` prints `{ (inner)` while `description()` returns `{{`; the intended template prints `{{ (inner)` |

## Findings

| source | as written | input that shows it | evidently intended | confidence | as-written member | corrected member |
|---|---|---|---|---|---|---|
| src/lib.rs:112-113 | `write!(fmt, concat!($desc, " ({})"), c)` makes the description part of the format string, so braces in it are interpreted | `Error! { ("{}") enum E { A(io::Error) } }` does not compile (two placeholders, one argument); with `("{{")`, `Display` prints `{ (…)` but `description()` returns `{{` | `Display` prints the description verbatim, `write!(fmt, "{} ({})", $desc, c)` | medium, not executed | `ErrorDerive.DisplayAsWritten`, `ErrorDerive.PlaceholderDescriptionRejected`, `ErrorDerive.EscapedDescriptionMisprinted` | `ErrorDerive.Display`, `ErrorDerive.ErrorMethods` |

## Left out

- Rust's fragment parsing (`tt`, `ty`, `meta`, `expr`), macro hygiene and token-tree grouping. An enum body is a sequence of abstract items.
- Shapes that the abstract items cannot express are not modelled. These are `Name(T,)` with a trailing comma inside the parentheses, `pub(crate)` or attributes on a field, and `Name = a = b`. The macro refuses the first two.
- Telling the explicit `const _error` arm apart from "no rule matched". Both are `Failure`, and the error message is not modelled.
- Where `Display` writes: the output goes to a `Formatter` through `write!`, and the model returns the printed text as a string. An inner value is its type name and the text its own `Display` prints.
- FormatArgs.Render: braces holding anything other than nothing (`{0}`, `{:?}`, `{name}`) are modelled as rejected, although rustc accepts some of them.
- Type checking of the generated code. In particular, two variants wrapping the same type give two conflicting `From` impls. Expansion succeeds but the crate does not compile.
- The `@as_item` wrapper around the callback invocation in the terminal arms. It always holds exactly one item there, so it never fails.
- CollectUnary, CollectUnitary, ErrorFrom, Error: rustc's macro recursion limit is not modelled. Each skipped attribute and each collected variant recurses one level deeper (src/util.rs:28-31, 38-41, 65-68, 75-78, 85-88). A body longer than the limit therefore fails to expand unless the crate raises `#![recursion_limit]`, although the contracts say it succeeds.
- Error, DisplayAsWritten, Description: the description is modelled as the value of a string literal. `$desc:expr` also accepts other expressions: a constant is rejected by `concat!` and a non-string literal by the `&str` return type of `description()`.
- Invoking an `@expand` arm directly, and `custom_derive!` integration. The doc tests are examples of use.

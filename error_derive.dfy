/** The `ErrorFrom!` and `Error!` macros: each entry arm hands the enum body,
    with a `,` appended, to the unary-variant collector, naming itself as the
    callback; the `@expand` arms turn the collected `Name(Type)` list into
    trait implementations, modelled here as data together with the
    behaviour of the generated methods. */
module ErrorDerive {
  import opened Wrappers
  import opened EnumBody
  import opened EnumDeriveUtil
  import opened FormatArgs

  // ---------------------------------------------------------------------
  // Input: the enum declaration
  // ---------------------------------------------------------------------

  /** What stands before `enum`: the `pub` keyword, or anything else (an
      attribute, a restricted visibility such as `pub(crate)`). */
  datatype Prefix = PubKeyword | OtherPrefix

  datatype EnumDecl = EnumDecl(prefix: seq<Prefix>, name: Ident, hasGenerics: bool, body: seq<Item>)

  /** The entry arms' pattern `$(pub)* enum $name:ident { $($body:tt)* }`:
      any number of `pub`, then `enum`, the name and the braced body. */
  predicate HeaderMatches(decl: EnumDecl)
  {
    && (forall i | 0 <= i < |decl.prefix| :: decl.prefix[i] == PubKeyword)
    && !decl.hasGenerics
  }

  // ---------------------------------------------------------------------
  // Output: the generated implementations
  // ---------------------------------------------------------------------

  /** The callback each entry arm passes to the collector:
      `ErrorFrom { @expand $name }` or `Error { @expand $desc, $name }`. */
  datatype Callback = ErrorFromExpand(name: Ident) | ErrorExpand(desc: string, name: Ident)

  /** `impl From<source> for target { fn from(v) -> target { target::variant(v) } }` */
  datatype FromImpl = FromImpl(target: Ident, source: Ty, variant: Ident)

  /** `impl Display for target`: one match arm per variant, all printing the
      description followed by the wrapped value in parentheses. */
  datatype DisplayImpl = DisplayImpl(target: Ident, desc: string, arms: seq<Ident>)

  /** `impl Error for target`: a fixed `description()`, and a `cause()` with
      one match arm per variant. */
  datatype ErrorImpl = ErrorImpl(target: Ident, description: string, causeArms: seq<Ident>)

  datatype Generated = FromImpls(impls: seq<FromImpl>) | ErrorImpls(display: DisplayImpl, error: ErrorImpl)

  function VariantNames(vs: seq<UnaryVariant>): seq<Ident>
  {
    seq(|vs|, i requires 0 <= i < |vs| => vs[i].name)
  }

  /** The `@expand` arms, reached through the collector's callback. */
  function Expand(inv: Invocation<Callback, UnaryVariant>): Result<Generated>
  {
    var vs := inv.collected;
    match inv.mac
    case ErrorFromExpand(name) =>
      // `$( impl From<$var_tys> ... )*`: zero or more impls
      Success(FromImpls(seq(|vs|, i requires 0 <= i < |vs| => FromImpl(name, vs[i].ty, vs[i].name))))
    case ErrorExpand(desc, name) =>
      // the Display match is written `$( ... )+`: it must repeat at least once
      if |vs| == 0 then Failure
      else Success(ErrorImpls(DisplayImpl(name, desc, VariantNames(vs)), ErrorImpl(name, desc, VariantNames(vs))))
  }

  /** `ErrorFrom!`: succeeds exactly when the header matches and the body is
      made of single-field tuple variants, and then emits one `From` impl per
      variant. */
  function ErrorFrom(decl: EnumDecl): (r: Result<Generated>)
    ensures r.Success? <==> HeaderMatches(decl) && Conforms(decl.body + [Comma], UnaryShape)
    ensures r.Success? ==> r.value.FromImpls? && |r.value.impls| == VariantCount(decl.body)
  {
    if !HeaderMatches(decl) then Failure
    else
      var target := Callback(ErrorFromExpand(decl.name));
      match CollectUnary(target, decl.body + [Comma])
      case Success(inv) =>
        UnaryCountsVariants(target, decl.body + [Comma]);
        VariantCountAppend(decl.body, [Comma]);
        Expand(inv)
      case Failure => Failure
  }

  /** `Error!`: succeeds exactly when the header matches, the body is made of
      single-field tuple variants and there is at least one of them. */
  function Error(desc: string, decl: EnumDecl): (r: Result<Generated>)
    ensures r.Success? <==>
              HeaderMatches(decl) && Conforms(decl.body + [Comma], UnaryShape) && VariantCount(decl.body) > 0
    ensures r.Success? ==> r.value.ErrorImpls? && |r.value.error.causeArms| == VariantCount(decl.body)
  {
    if !HeaderMatches(decl) then Failure
    else
      var target := Callback(ErrorExpand(desc, decl.name));
      match CollectUnary(target, decl.body + [Comma])
      case Success(inv) =>
        UnaryCountsVariants(target, decl.body + [Comma]);
        VariantCountAppend(decl.body, [Comma]);
        Expand(inv)
      case Failure => Failure
  }

  // ---------------------------------------------------------------------
  // Behaviour of the generated methods
  // ---------------------------------------------------------------------

  /** An inner error value: its type and the text its own `Display` prints. */
  datatype Value = Value(ty: Ty, text: string)

  /** A value `enumName::variant(inner)`. */
  datatype EnumValue = EnumValue(enumName: Ident, variant: Ident, inner: Value)

  /** `from(v)` of a generated `From` impl. */
  function From(impl: FromImpl, v: Value): EnumValue
    requires v.ty == impl.source
  {
    EnumValue(impl.target, impl.variant, v)
  }

  /** `fmt` of the generated `Display`, as the template evidently intends it:
      `write!(f, "{} ({})", desc, inner)`. */
  function Display(d: DisplayImpl, e: EnumValue): Option<string>
    requires e.enumName == d.target && e.variant in d.arms
  {
    Render("{} ({})", [d.desc, e.inner.text])
  }

  /** `fmt` of the generated `Display` as written: the description is spliced
      into the format string by `concat!($desc, " ({})")`. `None` means the
      compiler rejects that format string. */
  function DisplayAsWritten(d: DisplayImpl, e: EnumValue): Option<string>
    requires e.enumName == d.target && e.variant in d.arms
  {
    Render(d.desc + " ({})", [e.inner.text])
  }

  /** `description()` of the generated `Error` impl. */
  function Description(err: ErrorImpl, e: EnumValue): string
    requires e.enumName == err.target
  {
    err.description
  }

  /** `cause()` of the generated `Error` impl: the arm of the value's variant
      returns `Some` of the wrapped value. */
  function Cause(err: ErrorImpl, e: EnumValue): Option<Value>
    requires e.enumName == err.target && e.variant in err.causeArms
  {
    Some(e.inner)
  }

  /** The item declares the variant of `e`, wrapping `e`'s inner type. */
  predicate Carries(item: Item, e: EnumValue)
  {
    item.Declared? && UnaryShape(item.variant) == Some(UnaryVariant(e.variant, e.inner.ty))
  }

  /** `e` is a value of the declared enum. */
  predicate IsValueOf(decl: EnumDecl, e: EnumValue)
  {
    e.enumName == decl.name && exists i | 0 <= i < |decl.body| :: Carries(decl.body[i], e)
  }

  // ---------------------------------------------------------------------
  // Properties
  // ---------------------------------------------------------------------

  /** The variants the entry arms collect from a declaration. */
  function Collected(decl: EnumDecl): seq<UnaryVariant>
  {
    Entries(decl.body + [Comma], UnaryShape)
  }

  lemma ErrorFromImpls(decl: EnumDecl)
    requires ErrorFrom(decl).Success?
    ensures ErrorFrom(decl).value.impls
            == seq(|Collected(decl)|, i requires 0 <= i < |Collected(decl)| =>
                     FromImpl(decl.name, Collected(decl)[i].ty, Collected(decl)[i].name))
  {
  }

  /** Every value of the enum is what `from` of some generated impl builds
      from its inner value. */
  lemma ErrorFromCoversValues(decl: EnumDecl, e: EnumValue)
    requires ErrorFrom(decl).Success? && IsValueOf(decl, e)
    ensures exists k | 0 <= k < |ErrorFrom(decl).value.impls| ::
              ErrorFrom(decl).value.impls[k].source == e.inner.ty
              && From(ErrorFrom(decl).value.impls[k], e.inner) == e
  {
    var impls := ErrorFrom(decl).value.impls;
    var vs := Collected(decl);
    ErrorFromImpls(decl);
    var i :| 0 <= i < |decl.body| && Carries(decl.body[i], e);
    var body := decl.body + [Comma];
    assert body[i] == decl.body[i];
    EntriesComplete(body, UnaryShape, i);
    var k :| 0 <= k < |vs| && vs[k] == UnaryVariant(e.variant, e.inner.ty);
    assert impls[k] == FromImpl(decl.name, e.inner.ty, e.variant);
  }

  /** Every generated impl converts into a value of the enum: its source type
      is the type wrapped by a variant of that name. */
  lemma ErrorFromImplsSound(decl: EnumDecl, k: int, v: Value)
    requires ErrorFrom(decl).Success?
    requires 0 <= k < |ErrorFrom(decl).value.impls| && v.ty == ErrorFrom(decl).value.impls[k].source
    ensures IsValueOf(decl, From(ErrorFrom(decl).value.impls[k], v))
  {
    var vs := Collected(decl);
    var body := decl.body + [Comma];
    ErrorFromImpls(decl);
    var e := From(ErrorFrom(decl).value.impls[k], v);
    assert vs[k] in vs;
    EntriesSound(body, UnaryShape, vs[k]);
    var i :| 0 <= i < |body| && Accepts(UnaryShape, body[i]) && UnaryShape(body[i].variant) == Some(vs[k]);
    assert i < |decl.body| && body[i] == decl.body[i];
    assert Carries(decl.body[i], e);
  }

  /** `Name(Type),` for each variant, the last comma optional. */
  function DeclareBody(vs: seq<UnaryVariant>, trailingComma: bool): seq<Item>
  {
    if trailingComma || vs == [] then DeclareUnary(vs)
    else DeclareUnary(vs)[..|DeclareUnary(vs)| - 1]
  }

  lemma {:induction false} DeclareUnaryEndsWithComma(vs: seq<UnaryVariant>)
    requires vs != []
    ensures |DeclareUnary(vs)| >= 2 && DeclareUnary(vs)[|DeclareUnary(vs)| - 1] == Comma
  {
    if vs[1..] != [] {
      DeclareUnaryEndsWithComma(vs[1..]);
    }
  }

  /** An enum declared with variants `vs` (with or without a comma after the
      last variant) gets exactly one `From` impl per variant, in declaration
      order, each building its own variant. */
  lemma ErrorFromDeclared(prefix: seq<Prefix>, name: Ident, vs: seq<UnaryVariant>, trailingComma: bool)
    requires forall i | 0 <= i < |prefix| :: prefix[i] == PubKeyword
    ensures ErrorFrom(EnumDecl(prefix, name, false, DeclareBody(vs, trailingComma)))
            == Success(FromImpls(seq(|vs|, i requires 0 <= i < |vs| => FromImpl(name, vs[i].ty, vs[i].name))))
  {
    var decl := EnumDecl(prefix, name, false, DeclareBody(vs, trailingComma));
    var target := Callback(ErrorFromExpand(name));
    if trailingComma || vs == [] {
      assert decl.body + [Comma] == DeclareUnary(vs) + Commas(1);
      UnaryDeclaredRoundTrip(ErrorFromExpand(name), vs, 1);
    } else {
      DeclareUnaryEndsWithComma(vs);
      assert decl.body + [Comma] == DeclareUnary(vs) + Commas(0);
      UnaryDeclaredRoundTrip(ErrorFromExpand(name), vs, 0);
    }
  }

  /** For every value of an enum on which `Error!` succeeded: the match arms
      cover its variant, `description()` is the fixed description,
      `cause()` is `Some` of the wrapped value, and the intended `Display`
      prints the description followed by the wrapped value's text in
      parentheses; the `Display` as written does so when the description
      has no braces. */
  lemma ErrorMethods(desc: string, decl: EnumDecl, e: EnumValue)
    requires Error(desc, decl).Success? && IsValueOf(decl, e)
    ensures var g := Error(desc, decl).value;
            && e.enumName == g.display.target && e.variant in g.display.arms
            && e.enumName == g.error.target && e.variant in g.error.causeArms
            && Description(g.error, e) == desc
            && Cause(g.error, e) == Some(e.inner)
            && Display(g.display, e) == Some(desc + " (" + e.inner.text + ")")
            && (NoBraces(desc) ==> DisplayAsWritten(g.display, e) == Some(desc + " (" + e.inner.text + ")"))
  {
    var g := Error(desc, decl).value;
    var vs := Collected(decl);
    var body := decl.body + [Comma];
    assert g == ErrorImpls(DisplayImpl(decl.name, desc, VariantNames(vs)), ErrorImpl(decl.name, desc, VariantNames(vs)));
    var i :| 0 <= i < |decl.body| && Carries(decl.body[i], e);
    assert body[i] == decl.body[i];
    EntriesComplete(body, UnaryShape, i);
    var k :| 0 <= k < |vs| && vs[k] == UnaryVariant(e.variant, e.inner.ty);
    assert VariantNames(vs)[k] == e.variant;
    RenderParenthesised(desc, e.inner.text);
    if NoBraces(desc) {
      DisplayAsWrittenAgrees(g.display, e);
    }
  }

  /** On an enum with no variants `ErrorFrom!` emits no impl at all, while
      `Error!` fails to expand. */
  lemma EmptyEnum(prefix: seq<Prefix>, name: Ident, desc: string)
    requires forall i | 0 <= i < |prefix| :: prefix[i] == PubKeyword
    ensures ErrorFrom(EnumDecl(prefix, name, false, [])) == Success(FromImpls([]))
    ensures Error(desc, EnumDecl(prefix, name, false, [])) == Failure
  {
  }

  // ---------------------------------------------------------------------
  // The description spliced into the format string
  // ---------------------------------------------------------------------

  /** As written and as intended agree whenever the description has no
      braces. */
  lemma DisplayAsWrittenAgrees(d: DisplayImpl, e: EnumValue)
    requires e.enumName == d.target && e.variant in d.arms && NoBraces(d.desc)
    ensures DisplayAsWritten(d, e) == Display(d, e) == Some(d.desc + " (" + e.inner.text + ")")
  {
    RenderPlain(d.desc, " ({})", [e.inner.text]);
    RenderParenthesisedSuffix(e.inner.text);
    RenderParenthesised(d.desc, e.inner.text);
    assert d.desc + (" (" + e.inner.text + ")") == d.desc + " (" + e.inner.text + ")";
  }

  /** The as-written `Display` prints a description verbatim exactly when
      its braces were doubled: given `Escape(s)` as the description, it
      prints what the intended `Display` prints for `s`. */
  lemma DisplayAsWrittenEscaped(name: Ident, s: string, arms: seq<Ident>, e: EnumValue)
    requires e.enumName == name && e.variant in arms
    ensures DisplayAsWritten(DisplayImpl(name, Escape(s), arms), e) == Display(DisplayImpl(name, s, arms), e)
    ensures Display(DisplayImpl(name, s, arms), e) == Some(s + " (" + e.inner.text + ")")
  {
    RenderEscaped(s, " ({})", [e.inner.text]);
    RenderParenthesisedSuffix(e.inner.text);
    RenderParenthesised(s, e.inner.text);
    assert s + (" (" + e.inner.text + ")") == s + " (" + e.inner.text + ")";
  }

  /** The description `"{}"` becomes a second placeholder with no argument
      for it: the generated `Display` does not compile. */
  lemma PlaceholderDescriptionRejected(name: Ident, variant: Ident, inner: Value)
    ensures DisplayAsWritten(DisplayImpl(name, "{}", [variant]), EnumValue(name, variant, inner)) == None
    ensures Display(DisplayImpl(name, "{}", [variant]), EnumValue(name, variant, inner))
            == Some("{} (" + inner.text + ")")
  {
    var fmt := "{}" + " ({})";
    assert fmt[2..] == " ({})";
    assert " ({})"[1..] == "({})";
    assert "({})"[1..] == "{})";
    assert Render("{})", []) == None;
    assert Render("({})", []) == None;
    assert Render(" ({})", []) == None;
    assert [inner.text][1..] == [];
    assert Render(fmt, [inner.text]) == Prepend(inner.text, Render(" ({})", []));
    RenderParenthesised("{}", inner.text);
    assert "{}" + " (" + inner.text + ")" == "{} (" + inner.text + ")";
  }

  /** The description `"{{"` is printed as a single `{` by `Display`, while
      `description()` returns it unchanged. */
  lemma EscapedDescriptionMisprinted(name: Ident, variant: Ident, inner: Value)
    ensures DisplayAsWritten(DisplayImpl(name, "{{", [variant]), EnumValue(name, variant, inner))
            == Some("{ (" + inner.text + ")")
    ensures Description(ErrorImpl(name, "{{", [variant]), EnumValue(name, variant, inner)) == "{{"
    ensures Display(DisplayImpl(name, "{{", [variant]), EnumValue(name, variant, inner))
            == Some("{{ (" + inner.text + ")")
  {
    var fmt := "{{" + " ({})";
    assert fmt[2..] == " ({})";
    RenderParenthesisedSuffix(inner.text);
    assert "{" + (" (" + inner.text + ")") == "{ (" + inner.text + ")";
    RenderParenthesised("{{", inner.text);
    assert "{{" + " (" + inner.text + ")" == "{{ (" + inner.text + ")";
  }
}

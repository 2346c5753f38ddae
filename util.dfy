/** The `enum_derive_util!` macro: small expression/item helpers and the two
    variant collectors that walk an enum body left to right, threading an
    accumulator, and hand the result to a callback macro. */
module EnumDeriveUtil {
  import opened Wrappers
  import opened EnumBody

  // ---------------------------------------------------------------------
  // Helper arms `@as_expr`, `@as_item`, `@first_expr`
  // ---------------------------------------------------------------------

  /** `@as_expr $e`: re-emits the expression. */
  function AsExpr(e: Expr): Expr { e }

  /** `@as_item $($i:item)+`: re-emits one or more items; no rule matches
      an empty item list. */
  function AsItem<T>(items: seq<T>): Result<seq<T>>
  {
    if |items| == 0 then Failure else Success(items)
  }

  /** `@first_expr`: the head of a non-empty, comma-separated expression list. */
  function FirstExpr(es: seq<Expr>): Result<Expr>
  {
    if |es| == 0 then Failure else Success(es[0])
  }

  lemma HelperIdentities<T>(e: Expr, items: seq<T>, es: seq<Expr>)
    ensures AsExpr(e) == e
    ensures AsItem(items).Success? <==> |items| > 0
    ensures AsItem(items).Success? ==> AsItem(items).value == items
    ensures FirstExpr([e] + es) == Success(e)
    ensures FirstExpr([]) == Failure
  {
  }

  // ---------------------------------------------------------------------
  // The collectors
  // ---------------------------------------------------------------------

  /** The fixed first argument of a collector: either a callback macro with
      its leading arguments (`($callback:ident { $($args:tt)* })`), or a bare
      enum name (`($name:ident)`), the form the explicit error arms match. */
  datatype Target<A> = Callback(mac: A) | Named(name: Ident)

  /** The callback invocation the terminal arm emits: the callback with its
      own arguments followed by the collected list. */
  datatype Invocation<A, V> = Invocation(mac: A, collected: seq<V>)

  /** One collected unary variant `Name(Type)`. */
  datatype UnaryVariant = UnaryVariant(name: Ident, ty: Ty)

  /** The walk shared by both collectors. `shape` says which variant
      declarations the collector accepts and what it records for them.
      Arms are tried in source order:
        1. only commas remain: invoke the callback with the accumulator;
        2. `#[attr]`: drop it, accumulator unchanged;
        3. an accepted variant followed by `,`: append its entry;
        4. anything else (the explicit `const _error` arm, or no arm at all):
           the expansion fails. */
  function Walk<A, V>(target: Target<A>, body: seq<Item>, acc: seq<V>, shape: Variant -> Option<V>)
    : Result<Invocation<A, V>>
    decreases |body|
  {
    if AllCommas(body) then
      if target.Callback? then Success(Invocation(target.mac, acc)) else Failure
    else
      match body[0]
      case Attr(_) => Walk(target, body[1..], acc, shape)
      case Comma => Failure
      case Declared(v) =>
        match shape(v)
        case Some(entry) =>
          if 2 <= |body| && body[1].Comma? then Walk(target, body[2..], acc + [entry], shape)
          else Failure
        case None => Failure
  }

  // ---------------------------------------------------------------------
  // Reference definition: which bodies a collector accepts, and what it
  // collects, stated position by position rather than as a walk
  // ---------------------------------------------------------------------

  predicate Accepts<V>(shape: Variant -> Option<V>, item: Item)
  {
    item.Declared? && shape(item.variant).Some?
  }

  /** Position `i` of `body` is well placed: an attribute anywhere outside a
      variant; an accepted variant immediately followed by a comma; a comma
      either closing an accepted variant or part of the all-comma tail. */
  predicate Slot<V>(body: seq<Item>, i: int, shape: Variant -> Option<V>)
    requires 0 <= i < |body|
  {
    match body[i]
    case Attr(_) => true
    case Declared(v) => shape(v).Some? && i + 1 < |body| && body[i + 1].Comma?
    case Comma => (0 < i && Accepts(shape, body[i - 1])) || AllCommas(body[i..])
  }

  predicate Conforms<V>(body: seq<Item>, shape: Variant -> Option<V>)
  {
    forall i | 0 <= i < |body| :: Slot(body, i, shape)
  }

  /** The entries of the accepted variants of `body`, in declaration order. */
  function Entries<V>(body: seq<Item>, shape: Variant -> Option<V>): seq<V>
  {
    if body == [] then []
    else (if Accepts(shape, body[0]) then [shape(body[0].variant).value] else [])
         + Entries(body[1..], shape)
  }

  lemma {:induction false} AllCommasCollectNothing<V>(body: seq<Item>, shape: Variant -> Option<V>)
    requires AllCommas(body)
    ensures Conforms(body, shape) && Entries(body, shape) == []
  {
    forall i | 0 <= i < |body| ensures Slot(body, i, shape) {
      assert AllCommas(body[i..]);
    }
    if body != [] {
      assert AllCommas(body[1..]);
      AllCommasCollectNothing(body[1..], shape);
    }
  }

  /** Dropping a well-placed prefix that does not end in an accepted variant
      leaves conformance unchanged. */
  lemma ConformsDropPrefix<V>(body: seq<Item>, k: int, shape: Variant -> Option<V>)
    requires 0 < k <= |body|
    requires forall j | 0 <= j < k :: Slot(body, j, shape)
    requires !Accepts(shape, body[k - 1])
    ensures Conforms(body, shape) <==> Conforms(body[k..], shape)
  {
    var tail := body[k..];
    forall i | k <= i < |body| ensures Slot(body, i, shape) <==> Slot(tail, i - k, shape) {
      assert body[i] == tail[i - k];
      assert body[i..] == tail[i - k..];
      if i + 1 < |body| { assert body[i + 1] == tail[i - k + 1]; }
      if i > k { assert body[i - 1] == tail[i - k - 1]; }
    }
    if Conforms(tail, shape) {
      forall i | 0 <= i < |body| ensures Slot(body, i, shape) {
        if k <= i { assert Slot(tail, i - k, shape); }
      }
    }
    if Conforms(body, shape) {
      forall j | 0 <= j < |tail| ensures Slot(tail, j, shape) {
        assert Slot(body, j + k, shape);
      }
    }
  }

  /** The walk accepts exactly the conforming bodies, and then hands the
      callback the accumulator followed by the entries in order. */
  lemma {:induction false} WalkCharacterised<A, V>(target: Target<A>, body: seq<Item>, acc: seq<V>,
                                                   shape: Variant -> Option<V>)
    ensures Walk(target, body, acc, shape) ==
            if target.Callback? && Conforms(body, shape)
            then Success(Invocation(target.mac, acc + Entries(body, shape)))
            else Failure
    decreases |body|
  {
    if AllCommas(body) {
      AllCommasCollectNothing(body, shape);
      assert acc + [] == acc;
    } else {
      match body[0]
      case Attr(_) =>
        WalkCharacterised(target, body[1..], acc, shape);
        assert Slot(body, 0, shape);
        ConformsDropPrefix(body, 1, shape);
        assert Entries(body, shape) == Entries(body[1..], shape);
      case Comma =>
        assert !AllCommas(body[0..]) by { assert body[0..] == body; }
        assert !Slot(body, 0, shape);
      case Declared(v) =>
        if shape(v).Some? && 2 <= |body| && body[1].Comma? {
          var entry := shape(v).value;
          WalkCharacterised(target, body[2..], acc + [entry], shape);
          assert Slot(body, 0, shape) && Slot(body, 1, shape);
          ConformsDropPrefix(body, 2, shape);
          assert body[1..][1..] == body[2..];
          assert Entries(body, shape) == [entry] + Entries(body[2..], shape);
          assert acc + [entry] + Entries(body[2..], shape) == acc + ([entry] + Entries(body[2..], shape));
        } else {
          assert !Slot(body, 0, shape);
        }
    }
  }

  /** Every accepted variant of the body contributes its entry. */
  lemma {:induction false} EntriesComplete<V>(body: seq<Item>, shape: Variant -> Option<V>, i: int)
    requires 0 <= i < |body| && Accepts(shape, body[i])
    ensures shape(body[i].variant).value in Entries(body, shape)
  {
    if i > 0 {
      assert body[1..][i - 1] == body[i];
      EntriesComplete(body[1..], shape, i - 1);
    }
  }

  /** Every entry comes from an accepted variant of the body. */
  lemma {:induction false} EntriesSound<V>(body: seq<Item>, shape: Variant -> Option<V>, x: V)
    requires x in Entries(body, shape)
    ensures exists i | 0 <= i < |body| :: Accepts(shape, body[i]) && shape(body[i].variant) == Some(x)
  {
    if Accepts(shape, body[0]) && shape(body[0].variant) == Some(x) {
      assert Accepts(shape, body[0]) && shape(body[0].variant) == Some(x);
    } else {
      EntriesSound(body[1..], shape, x);
      var i :| 0 <= i < |body[1..]| && Accepts(shape, body[1..][i]) && shape(body[1..][i].variant) == Some(x);
      assert body[1..][i] == body[i + 1];
    }
  }

  /** When every variant of the body is accepted, there is one entry per
      variant. */
  lemma {:induction false} EntriesCount<V>(body: seq<Item>, shape: Variant -> Option<V>)
    requires forall i | 0 <= i < |body| :: body[i].Declared? ==> Accepts(shape, body[i])
    ensures |Entries(body, shape)| == VariantCount(body)
  {
    if body != [] {
      assert forall i | 0 <= i < |body[1..]| :: body[1..][i] == body[i + 1];
      EntriesCount(body[1..], shape);
    }
  }

  /** In a conforming body every declared variant is accepted. */
  lemma ConformingAcceptsAll<V>(body: seq<Item>, shape: Variant -> Option<V>, i: int)
    requires Conforms(body, shape) && 0 <= i < |body| && body[i].Declared?
    ensures Accepts(shape, body[i])
  {
    assert Slot(body, i, shape);
  }

  // ---------------------------------------------------------------------
  // `@collect_unary_variants`
  // ---------------------------------------------------------------------

  /** A single-field tuple variant `Name(Type)` or `Name(pub Type)` is
      recorded as `Name(Type)`; every other shape is refused. */
  function UnaryShape(v: Variant): Option<UnaryVariant>
  {
    match v
    case Tuple(name, fields) =>
      if |fields| == 1 then Some(UnaryVariant(name, fields[0].ty)) else None
    case _ => None
  }

  function CollectUnary<A>(target: Target<A>, body: seq<Item>): (r: Result<Invocation<A, UnaryVariant>>)
    ensures r.Success? <==> target.Callback? && Conforms(body, UnaryShape)
    ensures r.Success? ==> r.value == Invocation(target.mac, Entries(body, UnaryShape))
  {
    WalkCharacterised(target, body, [], UnaryShape);
    Walk(target, body, [], UnaryShape)
  }

  /** A leading attribute is consumed and the accumulator is left as it was. */
  lemma UnaryAttributeSkipped<A>(target: Target<A>, meta: string, body: seq<Item>, acc: seq<UnaryVariant>)
    ensures Walk(target, [Attr(meta)] + body, acc, UnaryShape) == Walk(target, body, acc, UnaryShape)
  {
    assert ([Attr(meta)] + body)[1..] == body;
  }

  /** Collection succeeds on a body made only of commas, handing the
      callback exactly the accumulator. */
  lemma UnaryCommasOnly<A>(mac: A, n: nat, acc: seq<UnaryVariant>)
    ensures Walk(Callback(mac), Commas(n), acc, UnaryShape) == Success(Invocation(mac, acc))
  {
  }

  /** `Name(Type),` for each variant, in order. */
  function DeclareUnary(vs: seq<UnaryVariant>): seq<Item>
  {
    if vs == [] then []
    else [Declared(Tuple(vs[0].name, [Field(false, vs[0].ty)])), Comma] + DeclareUnary(vs[1..])
  }

  lemma {:induction false} UnaryWalkDeclared<A>(mac: A, vs: seq<UnaryVariant>, n: nat, acc: seq<UnaryVariant>)
    ensures Walk(Callback(mac), DeclareUnary(vs) + Commas(n), acc, UnaryShape) == Success(Invocation(mac, acc + vs))
  {
    if vs == [] {
      assert DeclareUnary(vs) + Commas(n) == Commas(n);
      assert acc + vs == acc;
    } else {
      var body := DeclareUnary(vs) + Commas(n);
      assert body[0] == Declared(Tuple(vs[0].name, [Field(false, vs[0].ty)]));
      assert !AllCommas(body);
      assert body[2..] == DeclareUnary(vs[1..]) + Commas(n);
      UnaryWalkDeclared(mac, vs[1..], n, acc + [vs[0]]);
      assert acc + [vs[0]] + vs[1..] == acc + vs;
    }
  }

  /** Collecting a declared list gives that list back: one entry per
      variant, in declaration order, whatever the number of trailing commas. */
  lemma UnaryDeclaredRoundTrip<A>(mac: A, vs: seq<UnaryVariant>, n: nat)
    ensures CollectUnary(Callback(mac), DeclareUnary(vs) + Commas(n)) == Success(Invocation(mac, vs))
  {
    UnaryWalkDeclared(mac, vs, n, []);
    assert [] + vs == vs;
  }

  /** Removes `pub` from every unnamed field. */
  function StripPub(body: seq<Item>): (r: seq<Item>)
  {
    seq(|body|, i requires 0 <= i < |body| => StripPubItem(body[i]))
  }

  function StripPubItem(item: Item): Item
  {
    match item
    case Declared(Tuple(name, fields)) =>
      Declared(Tuple(name, seq(|fields|, j requires 0 <= j < |fields| => Field(false, fields[j].ty))))
    case _ => item
  }

  lemma {:induction false} StripPubEntries(body: seq<Item>)
    ensures Entries(StripPub(body), UnaryShape) == Entries(body, UnaryShape)
  {
    if body != [] {
      assert StripPub(body)[1..] == StripPub(body[1..]);
      StripPubEntries(body[1..]);
    }
  }

  /** `Name(pub Type),` is collected exactly as `Name(Type),`: stripping
      every `pub` from a body changes neither acceptance nor the list. */
  lemma UnaryPubStripped<A>(target: Target<A>, body: seq<Item>)
    ensures CollectUnary(target, StripPub(body)) == CollectUnary(target, body)
  {
    var s := StripPub(body);
    forall i | 0 <= i < |body| ensures Slot(s, i, UnaryShape) == Slot(body, i, UnaryShape) {
      assert AllCommas(s[i..]) == AllCommas(body[i..]) by {
        assert forall j | 0 <= j < |body[i..]| :: s[i..][j].Comma? == body[i..][j].Comma?;
      }
    }
    assert Conforms(s, UnaryShape) == Conforms(body, UnaryShape);
    StripPubEntries(body);
  }

  /** A variant that is not a single-field tuple (a unit variant, with or
      without discriminant, a struct-like variant, a tuple of zero or of
      several fields) anywhere in the body makes collection fail, so the
      callback is never invoked. */
  lemma UnaryNonTupleRejected<A>(target: Target<A>, body: seq<Item>, i: int)
    requires 0 <= i < |body| && body[i].Declared? && !Accepts(UnaryShape, body[i])
    ensures CollectUnary(target, body) == Failure
  {
    assert !Slot(body, i, UnaryShape);
  }

  /** On success every variant of the body was a single-field tuple, and the
      callback receives one entry per variant. */
  lemma UnaryCountsVariants<A>(target: Target<A>, body: seq<Item>)
    requires CollectUnary(target, body).Success?
    ensures forall i | 0 <= i < |body| :: body[i].Declared? ==> Accepts(UnaryShape, body[i])
    ensures |CollectUnary(target, body).value.collected| == VariantCount(body)
  {
    forall i | 0 <= i < |body| && body[i].Declared? ensures Accepts(UnaryShape, body[i]) {
      ConformingAcceptsAll(body, UnaryShape, i);
    }
    EntriesCount(body, UnaryShape);
  }

  /** With a bare enum name as its fixed argument the collector never reaches
      a callback: it ends either in the explicit error arm or with no arm. */
  lemma UnaryNamedNeverSucceeds<A>(name: Ident, body: seq<Item>)
    ensures CollectUnary<A>(Named(name), body) == Failure
  {
  }

  // ---------------------------------------------------------------------
  // `@collect_unitary_variants`
  // ---------------------------------------------------------------------

  /** A field-less variant `Name` or `Name = expr` is recorded as its name;
      the discriminant is dropped. */
  function UnitShape(v: Variant): Option<Ident>
  {
    match v
    case Unit(name, _) => Some(name)
    case _ => None
  }

  function CollectUnitary<A>(target: Target<A>, body: seq<Item>): (r: Result<Invocation<A, Ident>>)
    ensures r.Success? <==> target.Callback? && Conforms(body, UnitShape)
    ensures r.Success? ==> r.value == Invocation(target.mac, Entries(body, UnitShape))
  {
    WalkCharacterised(target, body, [], UnitShape);
    Walk(target, body, [], UnitShape)
  }

  lemma UnitaryAttributeSkipped<A>(target: Target<A>, meta: string, body: seq<Item>, acc: seq<Ident>)
    ensures Walk(target, [Attr(meta)] + body, acc, UnitShape) == Walk(target, body, acc, UnitShape)
  {
    assert ([Attr(meta)] + body)[1..] == body;
  }

  /** `Name,` or `Name = expr,` for each (name, discriminant) pair, in order. */
  function DeclareUnits(units: seq<(Ident, Option<Expr>)>): seq<Item>
  {
    if units == [] then []
    else [Declared(Unit(units[0].0, units[0].1)), Comma] + DeclareUnits(units[1..])
  }

  function Names(units: seq<(Ident, Option<Expr>)>): seq<Ident>
  {
    seq(|units|, i requires 0 <= i < |units| => units[i].0)
  }

  lemma {:induction false} UnitaryWalkDeclared<A>(mac: A, units: seq<(Ident, Option<Expr>)>, n: nat, acc: seq<Ident>)
    ensures Walk(Callback(mac), DeclareUnits(units) + Commas(n), acc, UnitShape)
            == Success(Invocation(mac, acc + Names(units)))
  {
    if units == [] {
      assert DeclareUnits(units) + Commas(n) == Commas(n);
      assert acc + Names(units) == acc;
    } else {
      var body := DeclareUnits(units) + Commas(n);
      assert body[0] == Declared(Unit(units[0].0, units[0].1));
      assert !AllCommas(body);
      assert body[2..] == DeclareUnits(units[1..]) + Commas(n);
      UnitaryWalkDeclared(mac, units[1..], n, acc + [units[0].0]);
      assert acc + [units[0].0] + Names(units[1..]) == acc + Names(units);
    }
  }

  /** Collecting declared unit variants gives back exactly their names, in
      order, whether or not they carry a discriminant. */
  lemma UnitaryDeclaredRoundTrip<A>(mac: A, units: seq<(Ident, Option<Expr>)>, n: nat)
    ensures CollectUnitary(Callback(mac), DeclareUnits(units) + Commas(n)) == Success(Invocation(mac, Names(units)))
  {
    UnitaryWalkDeclared(mac, units, n, []);
    assert [] + Names(units) == Names(units);
  }

  /** A tuple or struct-like variant anywhere in the body makes unitary
      collection fail. */
  lemma UnitaryNonUnitRejected<A>(target: Target<A>, body: seq<Item>, i: int)
    requires 0 <= i < |body| && body[i].Declared? && !body[i].variant.Unit?
    ensures CollectUnitary(target, body) == Failure
  {
    assert !Slot(body, i, UnitShape);
  }
}

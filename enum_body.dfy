/** The tokens of an enum body, abstracted to the shapes the collector arms
    tell apart. */
module EnumBody {
  import opened Wrappers

  /** An identifier, a type and an expression, each as written in the source. */
  type Ident = string
  type Ty = string
  type Expr = string

  /** One unnamed field of a tuple variant: `T` or `pub T`. */
  datatype Field = Field(isPub: bool, ty: Ty)

  /** One named field of a struct-like variant: `[pub] name: T`. */
  datatype NamedField = NamedField(isPub: bool, name: Ident, ty: Ty)

  /** A variant declaration, without its separating comma. */
  datatype Variant =
    | Unit(name: Ident, discriminant: Option<Expr>)    // `Name` or `Name = expr`
    | Tuple(name: Ident, fields: seq<Field>)            // `Name(T, ...)`
    | Struct(name: Ident, namedFields: seq<NamedField>) // `Name { f: T, ... }`

  /** One element of an enum body as the collector arms see it: an outer
      attribute `#[meta]` (doc comments included), a `,`, or a variant. */
  datatype Item = Attr(meta: string) | Comma | Declared(variant: Variant)

  predicate AllCommas(items: seq<Item>)
  {
    forall i | 0 <= i < |items| :: items[i].Comma?
  }

  function Commas(n: nat): (r: seq<Item>)
    ensures |r| == n && AllCommas(r)
  {
    if n == 0 then [] else [Comma] + Commas(n - 1)
  }

  /** The number of variants declared in a body. */
  function VariantCount(body: seq<Item>): nat
  {
    if body == [] then 0
    else (if body[0].Declared? then 1 else 0) + VariantCount(body[1..])
  }

  lemma {:induction false} VariantCountAppend(a: seq<Item>, b: seq<Item>)
    ensures VariantCount(a + b) == VariantCount(a) + VariantCount(b)
  {
    if a != [] {
      assert (a + b)[1..] == a[1..] + b;
      VariantCountAppend(a[1..], b);
    } else {
      assert a + b == b;
    }
  }
}

/**
 A model of the two-variant sum type of the flashcard engine: a value that
 holds exactly one of a left payload or a right payload, together with its
 two converting constructors, the collapse of an `Either<T, T>`, its clone
 and its two text renderings (the user-facing display and the debug form).

 Rust's `Into` conversion, `Clone` on the payloads and the payloads' own
 `Display` and `Debug` renderings are code this model cannot see: each is a
 function parameter here, so every property below holds for every choice.
 */
module Either {

  datatype Option<T> = None | Some(value: T)

  /** Exactly one branch is populated: `Left` holds an `L`, `Right` an `R`. */
  datatype Either<L, R> = Left(left: L) | Right(right: R)

  /* ------------------------------------------------------------------ *
   *  The "pair of options, exactly one of which is Some" view
   * ------------------------------------------------------------------ */

  /** A pair of options in which one side is `Some` and the other `None`. */
  predicate ExactlyOne<L, R>(p: (Option<L>, Option<R>)) {
    p.0.Some? != p.1.Some?
  }

  /** The pair-of-options reading of an `Either`. */
  function ToOptions<L, R>(e: Either<L, R>): (p: (Option<L>, Option<R>))
    ensures ExactlyOne(p)
    ensures p.0.Some? <==> e.Left?
    ensures p.1.Some? <==> e.Right?
  {
    match e
    case Left(l) => (Some(l), None)
    case Right(r) => (None, Some(r))
  }

  /** Back from a pair of options with exactly one `Some`. */
  function FromOptions<L, R>(p: (Option<L>, Option<R>)): (e: Either<L, R>)
    requires ExactlyOne(p)
    ensures e.Left? <==> p.0.Some?
  {
    if p.0.Some? then Left(p.0.value) else Right(p.1.value)
  }

  /** Reading an `Either` as a pair of options loses nothing. */
  lemma FromToOptions<L, R>(e: Either<L, R>)
    ensures FromOptions(ToOptions(e)) == e
  {
  }

  /** Every pair with exactly one `Some` is the reading of one `Either`. */
  lemma ToFromOptions<L, R>(p: (Option<L>, Option<R>))
    requires ExactlyOne(p)
    ensures ToOptions(FromOptions(p)) == p
  {
  }

  /** Two `Either`s with the same pair-of-options reading are the same. */
  lemma ToOptionsInjective<L, R>(e1: Either<L, R>, e2: Either<L, R>)
    requires ToOptions(e1) == ToOptions(e2)
    ensures e1 == e2
  {
  }

  /* ------------------------------------------------------------------ *
   *  Constructors that convert their argument (`Either::l`, `Either::r`)
   * ------------------------------------------------------------------ */

  /** `Either::l`: the `Left` variant holding the converted argument. */
  function LeftInto<A, L, R>(a: A, into: A -> L): (e: Either<L, R>)
    ensures e.Left? && !e.Right?
    ensures ToOptions(e) == (Some(into(a)), None)
  {
    Left(into(a))
  }

  /** `Either::r`: the `Right` variant holding the converted argument. */
  function RightInto<B, L, R>(b: B, into: B -> R): (e: Either<L, R>)
    ensures e.Right? && !e.Left?
    ensures ToOptions(e) == (None, Some(into(b)))
  {
    Right(into(b))
  }

  /** With the identity conversion (Rust's reflexive `Into`), `Either::l`
      and `Either::r` store their argument unchanged. */
  lemma IntoIdentity<L, R>(a: L, b: R)
    ensures LeftInto<L, L, R>(a, x => x) == Left(a)
    ensures RightInto<R, L, R>(b, y => y) == Right(b)
  {
  }

  /* ------------------------------------------------------------------ *
   *  Collapse of an `Either<T, T>` (`to_normal`)
   * ------------------------------------------------------------------ */

  /** `to_normal`: the payload, whichever side holds it. */
  function ToNormal<T>(e: Either<T, T>): (x: T)
    ensures e == Left(x) || e == Right(x)
    ensures ToOptions(e).0 == Some(x) || ToOptions(e).1 == Some(x)
  {
    match e
    case Left(l) => l
    case Right(r) => r
  }

  /** Collapsing a value built by `Either::l` or `Either::r` gives back the
      converted argument, so the side is forgotten and nothing else. */
  lemma ToNormalOfConstructors<A, T>(a: A, into: A -> T)
    ensures ToNormal(LeftInto<A, T, T>(a, into)) == into(a)
    ensures ToNormal(RightInto<A, T, T>(a, into)) == into(a)
  {
  }

  /** Two `Either<T, T>` that collapse to the same payload and sit on the
      same side are equal: the side and the payload are all there is. */
  lemma ToNormalAndSideDetermine<T>(e1: Either<T, T>, e2: Either<T, T>)
    requires e1.Left? == e2.Left?
    requires ToNormal(e1) == ToNormal(e2)
    ensures e1 == e2
  {
  }

  /* ------------------------------------------------------------------ *
   *  Clone
   * ------------------------------------------------------------------ */

  /** `clone`: the same variant, holding the clone of the payload made by
      the payload's own `clone`. */
  function Clone<L, R>(e: Either<L, R>, cloneL: L -> L, cloneR: R -> R): (c: Either<L, R>)
    ensures c.Left? <==> e.Left?
    ensures c.Left? ==> c.left == cloneL(e.left)
    ensures c.Right? ==> c.right == cloneR(e.right)
  {
    match e
    case Left(l) => Left(cloneL(l))
    case Right(r) => Right(cloneR(r))
  }

  /** When the payloads clone to equal values, the clone equals the original. */
  lemma CloneOfFaithfulClones<L, R>(e: Either<L, R>, cloneL: L -> L, cloneR: R -> R)
    requires forall l :: cloneL(l) == l
    requires forall r :: cloneR(r) == r
    ensures Clone(e, cloneL, cloneR) == e
  {
  }

  /** Cloning keeps the pair-of-options reading's `Some` on the same side. */
  lemma CloneKeepsSide<L, R>(e: Either<L, R>, cloneL: L -> L, cloneR: R -> R)
    ensures ToOptions(Clone(e, cloneL, cloneR)).0.Some? == ToOptions(e).0.Some?
    ensures ExactlyOne(ToOptions(Clone(e, cloneL, cloneR)))
  {
  }

  /** Collapsing commutes with cloning when both sides clone alike. */
  lemma ToNormalOfClone<T>(e: Either<T, T>, cloneT: T -> T)
    ensures ToNormal(Clone(e, cloneT, cloneT)) == cloneT(ToNormal(e))
  {
  }

  /* ------------------------------------------------------------------ *
   *  Text renderings
   * ------------------------------------------------------------------ */

  /** The name of the active variant, as both renderings spell it. */
  function VariantName<L, R>(e: Either<L, R>): string {
    match e
    case Left(_) => "Left"
    case Right(_) => "Right"
  }

  /** The rendering of the active payload, by that side's renderer. */
  function Payload<L, R>(e: Either<L, R>, showL: L -> string, showR: R -> string): string {
    match e
    case Left(l) => showL(l)
    case Right(r) => showR(r)
  }

  /** `s` with the prefix `p` removed, or `None` when `s` does not start with `p`. */
  function StripPrefix(p: string, s: string): (rest: Option<string>)
    ensures rest.Some? ==> p + rest.value == s
  {
    if |p| <= |s| && s[..|p|] == p then Some(s[|p|..]) else None
  }

  lemma StripPrefixOfConcat(p: string, t: string)
    ensures StripPrefix(p, p + t) == Some(t)
  {
  }

  /** A string whose first character differs from `p`'s does not start with `p`. */
  lemma StripPrefixMismatch(p: string, s: string)
    requires |p| > 0 && |s| > 0 && p[0] != s[0]
    ensures StripPrefix(p, s) == None
  {
  }

  /* ---------------- Display ---------------- */

  const DISPLAY_PREFIX := "Either on "

  /** `Display::fmt`: "Either on ", then "Left: " and the left payload's
      display, or "Right: " and the right payload's display. */
  function Display<L, R>(e: Either<L, R>, showL: L -> string, showR: R -> string): (s: string)
    ensures |DISPLAY_PREFIX| <= |s| && s[..|DISPLAY_PREFIX|] == DISPLAY_PREFIX
    ensures s == DISPLAY_PREFIX + VariantName(e) + ": " + Payload(e, showL, showR)
  {
    var s := DISPLAY_PREFIX + match e
      case Left(l) => "Left: " + showL(l)
      case Right(r) => "Right: " + showR(r);
    assert s[..|DISPLAY_PREFIX|] == DISPLAY_PREFIX;
    s
  }

  /** Reads back the variant name and the payload text from a display
      string, or `None` when the string is not one. */
  function ParseDisplay(s: string): Option<(string, string)> {
    match StripPrefix(DISPLAY_PREFIX, s)
    case None => None
    case Some(rest) =>
      match StripPrefix("Left: ", rest)
      case Some(t) => Some(("Left", t))
      case None =>
        match StripPrefix("Right: ", rest)
        case Some(t) => Some(("Right", t))
        case None => None
  }

  /** The display string names the active variant and carries its payload's
      display, and both can be read back from it. */
  lemma ParseDisplayOfDisplay<L, R>(e: Either<L, R>, showL: L -> string, showR: R -> string)
    ensures ParseDisplay(Display(e, showL, showR)) == Some((VariantName(e), Payload(e, showL, showR)))
  {
    var body := VariantName(e) + ": " + Payload(e, showL, showR);
    assert Display(e, showL, showR) == DISPLAY_PREFIX + body;
    StripPrefixOfConcat(DISPLAY_PREFIX, body);
    match e
    case Left(l) =>
      assert body == "Left: " + showL(l);
      StripPrefixOfConcat("Left: ", showL(l));
    case Right(r) =>
      assert body == "Right: " + showR(r);
      StripPrefixMismatch("Left: ", body);
      StripPrefixOfConcat("Right: ", showR(r));
  }

  /** Equal display strings come from the same variant with equally
      displayed payloads: a `Left` never displays like a `Right`. */
  lemma DisplayDeterminesVariant<L, R>(e1: Either<L, R>, e2: Either<L, R>, showL: L -> string, showR: R -> string)
    requires Display(e1, showL, showR) == Display(e2, showL, showR)
    ensures e1.Left? == e2.Left?
    ensures Payload(e1, showL, showR) == Payload(e2, showL, showR)
  {
    ParseDisplayOfDisplay(e1, showL, showR);
    ParseDisplayOfDisplay(e2, showL, showR);
  }

  /* ---------------- Debug ---------------- */

  /** The shape `Formatter::debug_struct` builds: a struct name and its
      named fields, each with its value already rendered. */
  datatype DebugStruct = DebugStruct(name: string, fields: seq<(string, string)>)

  /** `Debug::fmt` as a struct: named "Either", with exactly one field,
      named after the active variant and holding that payload's debug form. */
  function DebugView<L, R>(e: Either<L, R>, debugL: L -> string, debugR: R -> string): (d: DebugStruct)
    ensures d.name == "Either"
    ensures |d.fields| == 1
    ensures d.fields[0] == (VariantName(e), Payload(e, debugL, debugR))
  {
    match e
    case Left(l) => DebugStruct("Either", [("Left", debugL(l))])
    case Right(r) => DebugStruct("Either", [("Right", debugR(r))])
  }

  /** The fields of a struct in the single-line layout: `name: value`
      pairs separated by ", ". */
  function RenderFields(fields: seq<(string, string)>): string
    decreases |fields|
  {
    if |fields| == 0 then ""
    else if |fields| == 1 then fields[0].0 + ": " + fields[0].1
    else fields[0].0 + ": " + fields[0].1 + ", " + RenderFields(fields[1..])
  }

  /** The single-line layout of a debug struct: its name alone when it has
      no fields, otherwise `name { field: value, ... }`. */
  function RenderDebugStruct(d: DebugStruct): string {
    if |d.fields| == 0 then d.name else d.name + " { " + RenderFields(d.fields) + " }"
  }

  /** The debug string of an `Either`. */
  function Debug<L, R>(e: Either<L, R>, debugL: L -> string, debugR: R -> string): (s: string)
    ensures s == "Either { " + VariantName(e) + ": " + Payload(e, debugL, debugR) + " }"
  {
    RenderDebugStruct(DebugView(e, debugL, debugR))
  }

  const DEBUG_OPEN := "Either { "
  const DEBUG_CLOSE := " }"

  /** Reads back the field name and the field value from the debug string
      of an `Either`, or `None` when the string is not one. */
  function ParseDebug(s: string): Option<(string, string)> {
    if |s| < |DEBUG_CLOSE| || s[|s| - |DEBUG_CLOSE|..] != DEBUG_CLOSE then None
    else
      match StripPrefix(DEBUG_OPEN, s[..|s| - |DEBUG_CLOSE|])
      case None => None
      case Some(inner) =>
        match StripPrefix("Left: ", inner)
        case Some(t) => Some(("Left", t))
        case None =>
          match StripPrefix("Right: ", inner)
          case Some(t) => Some(("Right", t))
          case None => None
  }

  /** The debug string shows one field, named after the active variant and
      holding that payload's debug form, and both can be read back from it. */
  lemma ParseDebugOfDebug<L, R>(e: Either<L, R>, debugL: L -> string, debugR: R -> string)
    ensures ParseDebug(Debug(e, debugL, debugR)) == Some((VariantName(e), Payload(e, debugL, debugR)))
  {
    var inner := VariantName(e) + ": " + Payload(e, debugL, debugR);
    var s := Debug(e, debugL, debugR);
    assert s == DEBUG_OPEN + inner + DEBUG_CLOSE;
    assert s[|s| - |DEBUG_CLOSE|..] == DEBUG_CLOSE;
    assert s[..|s| - |DEBUG_CLOSE|] == DEBUG_OPEN + inner;
    StripPrefixOfConcat(DEBUG_OPEN, inner);
    match e
    case Left(l) =>
      assert inner == "Left: " + debugL(l);
      StripPrefixOfConcat("Left: ", debugL(l));
    case Right(r) =>
      assert inner == "Right: " + debugR(r);
      StripPrefixMismatch("Left: ", inner);
      StripPrefixOfConcat("Right: ", debugR(r));
  }

  /** Equal debug strings come from the same variant with equal payload
      debug forms: a `Left` never renders like a `Right`. */
  lemma DebugDeterminesVariant<L, R>(e1: Either<L, R>, e2: Either<L, R>, debugL: L -> string, debugR: R -> string)
    requires Debug(e1, debugL, debugR) == Debug(e2, debugL, debugR)
    ensures e1.Left? == e2.Left?
    ensures Payload(e1, debugL, debugR) == Payload(e2, debugL, debugR)
  {
    ParseDebugOfDebug(e1, debugL, debugR);
    ParseDebugOfDebug(e2, debugL, debugR);
  }
}

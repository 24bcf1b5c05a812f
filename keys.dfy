/** The direction latch: the `keys` object of four arrow flags, at most one of
    which is set, and the rule by which a key press replaces the latched one. */
module Keys {

  datatype Option<T> = None | Some(value: T)

  datatype Arrow = ArrowUp | ArrowDown | ArrowLeft | ArrowRight

  /** The property names of the `keys` object. */
  const AllArrows: set<Arrow> := {ArrowUp, ArrowDown, ArrowLeft, ArrowRight}

  /** The four flags, keyed by arrow. */
  type Flags = map<Arrow, bool>

  /** The key name a browser reports for an arrow. */
  function Name(a: Arrow): string {
    match a
    case ArrowUp => "ArrowUp"
    case ArrowDown => "ArrowDown"
    case ArrowLeft => "ArrowLeft"
    case ArrowRight => "ArrowRight"
  }

  /** The arrow whose property `keys` has under this key name, if any
      (`keys.hasOwnProperty(name)`). */
  function ArrowNamed(name: string): (r: Option<Arrow>)
    ensures r.Some? ==> Name(r.value) == name
    ensures r.None? ==> forall a :: Name(a) != name
  {
    if name == "ArrowUp" then Some(ArrowUp)
    else if name == "ArrowDown" then Some(ArrowDown)
    else if name == "ArrowLeft" then Some(ArrowLeft)
    else if name == "ArrowRight" then Some(ArrowRight)
    else None
  }

  /** The reverse direction; a press of it is refused while `a` is held. */
  function Opposite(a: Arrow): (r: Arrow)
    ensures {a, r} == {ArrowUp, ArrowDown} || {a, r} == {ArrowLeft, ArrowRight}
  {
    match a
    case ArrowUp => ArrowDown
    case ArrowDown => ArrowUp
    case ArrowLeft => ArrowRight
    case ArrowRight => ArrowLeft
  }

  /** The flags object has exactly its four properties. */
  predicate WellFormed(k: Flags) {
    k.Keys == AllArrows
  }

  /** At most one direction flag is set. */
  predicate AtMostOne(k: Flags) {
    forall a, b :: a in k && b in k && k[a] && k[b] ==> a == b
  }

  /** No direction flag is set. */
  predicate NoneHeld(k: Flags) {
    forall a :: a in k ==> !k[a]
  }

  /** All four flags cleared (the effect of `resetKeys`). */
  function Cleared(): (k: Flags)
    ensures WellFormed(k) && NoneHeld(k)
  {
    map a | a in AllArrows :: false
  }

  /** Exactly `a` set, the other three cleared. */
  function Only(a: Arrow): (k: Flags)
    ensures WellFormed(k) && AtMostOne(k) && a in k && k[a]
    ensures forall b :: b in k && b != a ==> !k[b]
  {
    map b | b in AllArrows :: b == a
  }

  /** The flags after pressing arrow `a`: unchanged when the opposite arrow is held,
      otherwise exactly `a` is held, whatever was held before (`a` itself included). */
  function Latch(k: Flags, a: Arrow): (r: Flags)
    requires WellFormed(k)
    ensures WellFormed(r)
    ensures k[Opposite(a)] ==> r == k
    ensures !k[Opposite(a)] ==> r[a] && forall b :: b in r && b != a ==> !r[b]
  {
    if k[Opposite(a)] then k else Only(a)
  }

  /** Exactly one direction flag is set, as in every state the page reaches. */
  predicate ExactlyOne(k: Flags) {
    exists a :: k == Only(a)
  }

  /** Pressing an arrow while exactly one is held leaves exactly one held. */
  lemma LatchKeepsExactlyOne(k: Flags, a: Arrow)
    requires WellFormed(k) && ExactlyOne(k)
    ensures ExactlyOne(Latch(k, a))
  {
  }

  /** Pressing an arrow never leaves two flags set. */
  lemma LatchKeepsAtMostOne(k: Flags, a: Arrow)
    requires WellFormed(k) && AtMostOne(k)
    ensures AtMostOne(Latch(k, a))
  {
  }

  /** Holding `a` and pressing `a` again changes nothing; holding `a`, every press
      except the reverse one latches the pressed arrow. */
  lemma LatchWhileHolding(a: Arrow, b: Arrow)
    ensures Latch(Only(a), b) == if b == Opposite(a) then Only(a) else Only(b)
  {
  }
}

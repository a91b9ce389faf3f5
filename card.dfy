/** The volunteer flip card: newCardFront, newCardBack, newCard,
    newCardContainer and callVolunteers, and the two hover handlers.

    The finished structure is container > card > [front, back]. The front holds
    deep copies of the host element's original children, taken before the host
    is cleared; the back is the call-to-action face. The host ends with the
    container as its only child. */
module Card {

  import opened Dom

  /** The front face built from the children `kids` of the host. */
  function FrontTree(kids: seq<Tree>): Tree {
    Tree("div", ["card-front"], kids)
  }

  /** The back face. Its innerHTML markup (a link to the volunteer form) is
      not part of the model. */
  function BackTree(): Tree {
    Tree("div", ["card-back"], [])
  }

  function CardTree(kids: seq<Tree>): Tree {
    Tree("div", ["card"], [FrontTree(kids), BackTree()])
  }

  function ContainerTree(kids: seq<Tree>): Tree {
    Tree("div", ["card-container"], [CardTree(kids)])
  }

  /** newCardFront, lines 137-159: deep-clone the element, then move the
      clone's children one by one, in order, into a fresh div. */
  method NewCardFront(element: Node) returns (front: Node, ghost emptied: Node)
    requires element.Valid()
    ensures front.Valid() && fresh(front.Repr) && fresh(front.style)
    ensures front.Model == FrontTree(element.Model.kids)
    ensures fresh(emptied) && emptied.Valid() && emptied.children == []
    ensures emptied.Model == Tree(element.name, element.classes, [])
  {
    front := new Node("div");
    var childElements := element.Clone();
    ghost var kids := element.Model.kids;
    ghost var moved := 0;
    while |childElements.children| > 0
      invariant front.Valid() && fresh(front.Repr) && front.name == "div" && front.classes == []
      invariant childElements.Valid() && fresh(childElements.Repr)
      invariant front !in childElements.Repr && childElements !in front.Repr
      invariant childElements.name == element.name && childElements.classes == element.classes
      invariant 0 <= moved <= |kids|
      invariant front.Model.kids == kids[..moved] && childElements.Model.kids == kids[moved..]
      decreases |childElements.children|
    {
      front.AppendFirstChildOf(childElements);
      assert kids[..moved] + [kids[moved]] == kids[..moved + 1];
      moved := moved + 1;
    }
    front.AddClass("card-front");
    emptied := childElements;
  }

  /** newCardBack, lines 110-135. */
  method NewCardBack() returns (back: Node)
    ensures back.Valid() && fresh(back.Repr) && fresh(back.style)
    ensures back.Model == BackTree()
    ensures back.style.transform == RotateY(180)
  {
    back := new Node("div");
    back.AddClass("card-back");
    back.style.transform := RotateY(180);
  }

  /** newCard, lines 86-108: a div with class "card" holding the front and the
      back, in that order. */
  method NewCard(element: Node) returns (card: Node)
    requires element.Valid()
    ensures card.Valid() && fresh(card.Repr) && fresh(card.style)
    ensures card.Model == CardTree(element.Model.kids)
    ensures card.style.transform == Unset
  {
    card := new Node("div");
    card.AddClass("card");
    var cardFront, _ := NewCardFront(element);
    var cardBack := NewCardBack();
    card.AppendChild(cardFront);
    card.AppendChild(cardBack);
  }

  /** newCardContainer, lines 51-84, with the host element (looked up on the
      page at lines 62-65) as a parameter: the card is built from the host's
      children BEFORE `innerHTML = ''` clears them. */
  method NewCardContainer(host: Node) returns (container: Node)
    requires host.Valid()
    modifies host
    ensures host.Valid() && host.Repr == old(host.Repr) && host.classes == old(host.classes)
    ensures host.children == [] && host.Model == Tree(host.name, host.classes, [])
    ensures container.Valid() && fresh(container.Repr)
    ensures container.Model == ContainerTree(old(host.Model.kids))
    ensures |container.children| == 1 && fresh(container.children[0].style)
    ensures container.children[0].style.transform == Unset
  {
    container := new Node("div");
    container.AddClass("card-container");
    var card := NewCard(host);
    container.AppendChild(card);
    host.ClearChildren();
  }

  /** callVolunteers, lines 161-196, with the host element as a parameter:
      the host's content becomes the front of a flip card and the host ends
      with the card container as its only child. `card` is the node the hover
      handlers act on, and it starts with no transform. */
  method CallVolunteers(host: Node) returns (container: Node, card: Node)
    requires host.Valid()
    modifies host
    ensures host.Valid() && host.children == [container] && host.classes == old(host.classes)
    ensures host.Model == Tree(host.name, host.classes, [ContainerTree(old(host.Model.kids))])
    ensures container.Valid() && fresh(container.Repr) && container.children == [card]
    ensures card.Model == CardTree(old(host.Model.kids))
    ensures fresh(card.style) && card.style.transform == Unset
  {
    container := NewCardContainer(host);
    // querySelector('.card'): in document order the first descendant of the
    // container is the card itself, which carries that class
    card := container.children[0];
    host.AppendChild(container);
  }

  /** The pointer events the container listens for. */
  datatype Event = MouseOver | MouseOut

  /** The transform the handler for `e` writes to the card, lines 190-195. */
  function Handle(e: Event): (r: Transform)
    ensures r.RotateY? && (r.degrees == 180 <==> e == MouseOver) && (r.degrees == 0 <==> e == MouseOut)
  {
    match e
    case MouseOver => RotateY(180)
    case MouseOut => RotateY(0)
  }

  /** The card's transform after the events `es`, starting from `t`. */
  function Replay(t: Transform, es: seq<Event>): Transform
    decreases |es|
  {
    if es == [] then t else Replay(Handle(es[0]), es[1..])
  }

  /** Runs the handler the container registered for `e`. */
  method Dispatch(card: Node, e: Event)
    modifies card.style
    ensures card.style.transform == Replay(old(card.style.transform), [e])
  {
    match e
    case MouseOver => card.style.transform := RotateY(180);
    case MouseOut => card.style.transform := RotateY(0);
  }

  /** After at least one event, the card's transform is the one the last
      event's handler wrote, whatever came before; with no event it is the
      starting value. */
  lemma {:induction false} ReplayIsLastEvent(t: Transform, es: seq<Event>)
    ensures es == [] ==> Replay(t, es) == t
    ensures es != [] ==> Replay(t, es) == Handle(es[|es| - 1])
    decreases |es|
  {
    if es != [] {
      ReplayIsLastEvent(Handle(es[0]), es[1..]);
    }
  }

  /** Replaying a history in two parts is replaying it whole: each Dispatch
      extends the history by one event, so after the calls Dispatch(card, e1),
      ..., Dispatch(card, en) the card's transform is Replay(t, [e1, ..., en]). */
  lemma {:induction false} ReplayAppend(t: Transform, es1: seq<Event>, es2: seq<Event>)
    ensures Replay(t, es1 + es2) == Replay(Replay(t, es1), es2)
    decreases |es1|
  {
    if es1 != [] {
      assert (es1 + es2)[0] == es1[0] && (es1 + es2)[1..] == es1[1..] + es2;
      ReplayAppend(Handle(es1[0]), es1[1..], es2);
    } else {
      assert es1 + es2 == es2;
    }
  }

  /** Repeating an event changes nothing, and a full hover cycle ends
      unflipped whatever happened before it. */
  lemma EventsIdempotent(t: Transform, es: seq<Event>, e: Event)
    ensures Replay(t, es + [e, e]) == Replay(t, es + [e])
    ensures Replay(t, es + [MouseOver, MouseOut]) == RotateY(0)
    ensures Replay(t, es + [MouseOver]) == RotateY(180)
  {
    ReplayIsLastEvent(t, es + [e, e]);
    ReplayIsLastEvent(t, es + [e]);
    ReplayIsLastEvent(t, es + [MouseOver, MouseOut]);
    ReplayIsLastEvent(t, es + [MouseOver]);
  }

  /** Two histories that end with the same event leave the card in the same
      state, whatever each started from. */
  lemma OnlyLastEventMatters(t1: Transform, es1: seq<Event>, t2: Transform, es2: seq<Event>)
    requires es1 != [] && es2 != [] && es1[|es1| - 1] == es2[|es2| - 1]
    ensures Replay(t1, es1) == Replay(t2, es2)
  {
    ReplayIsLastEvent(t1, es1);
    ReplayIsLastEvent(t2, es2);
  }
}

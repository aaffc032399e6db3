/** Redaction of sensitive fields in an object graph, cycles included. */
module Redactor {
  import opened Strings

  const SENSITIVE_FIELD_NAMES: set<string> := {
    "password", "token", "accessToken", "refreshToken", "authorization", "cardNumber",
    "cvv", "secret", "apiKey", "secretKey", "webhookSecret"
  }

  /** Values that are not objects; the last stands for functions, symbols and big integers. */
  datatype Primitive = Null | Undefined | Boolean(b: bool) | Number(n: real) | Text(s: string) | Other(name: string)

  const REDACTED := Text("[REDACTED]")
  const CIRCULAR := Text("[Circular]")

  // ---- Object graphs and the trees redaction returns ----

  /** A place in a container: an array item, or an object's own enumerable property. */
  datatype Slot<T> = Item(value: T) | Property(key: string, value: T) {
    predicate IsSensitive(): (sensitive: bool)
      ensures sensitive <==> HoldsSecret(this)
    {
      Property? && key in SENSITIVE_FIELD_NAMES
    }

    function With<U>(u: U): Slot<U> {
      match this
      case Item(_) => Item(u)
      case Property(key, _) => Property(key, u)
    }
  }

  /** A property under one of the eleven names. */
  predicate HoldsSecret<T>(slot: Slot<T>) {
    slot.Property? &&
    (|| slot.key == "password" || slot.key == "token" || slot.key == "accessToken" || slot.key == "refreshToken"
     || slot.key == "authorization" || slot.key == "cardNumber" || slot.key == "cvv" || slot.key == "secret"
     || slot.key == "apiKey" || slot.key == "secretKey" || slot.key == "webhookSecret")
  }

  /** Both array items, or both properties of one name. */
  predicate AreNamedAlike<T, U>(a: Slot<T>, b: Slot<U>) {
    if a.Property? then b.Property? && a.key == b.key else b.Item?
  }

  datatype Value = Plain(p: Primitive) | Ref(id: nat)

  /**
   * An array, a plain object, or anything else: a Date, Map, Set, Error or class instance, with state beside its
   * properties.
   */
  datatype Kind = Items | PlainObject | Instance(state: string) {
    /** Only arrays keep their kind; every other object comes back as a plain one. */
    function Flattened(): Kind {
      if Items? then Items else PlainObject
    }
  }

  datatype Container = Container(kind: Kind, slots: seq<Slot<Value>>)

  type Heap = map<nat, Container>

  datatype Tree = Leaf(p: Primitive) | Branch(kind: Kind, children: seq<Slot<Tree>>)

  /** Arrays hold items and other objects hold properties; every reference leads to a container. */
  predicate IsGraph(heap: Heap) {
    forall id <- heap ::
      forall slot <- heap[id].slots :: (slot.Item? <==> heap[id].kind.Items?) && Leads(heap, slot.value)
  }

  predicate Leads(heap: Heap, value: Value) {
    value.Ref? ==> value.id in heap
  }

  predicate AllLead(heap: Heap, slots: seq<Slot<Value>>) {
    forall slot <- slots :: Leads(heap, slot.value)
  }

  // ---- What redaction returns: the tree, and the containers seen so far ----

  function Redacted(heap: Heap, value: Value, seen: set<nat>): (result: (Tree, set<nat>))
    requires IsGraph(heap) && Leads(heap, value)
    ensures seen <= result.1
    decreases heap.Keys - seen, 0
  {
    match value
    case Plain(p) => (Leaf(p), seen)
    case Ref(id) =>
      if id in seen then (Leaf(CIRCULAR), seen)
      else
        var (children, after) := RedactedSlots(heap, heap[id].slots, seen + {id});
        (Branch(heap[id].kind.Flattened(), children), after)
  }

  function RedactedSlots(heap: Heap, slots: seq<Slot<Value>>, seen: set<nat>): (result: (seq<Slot<Tree>>, set<nat>))
    requires IsGraph(heap) && AllLead(heap, slots)
    ensures seen <= result.1 && |result.0| == |slots|
    decreases heap.Keys - seen, |slots|
  {
    if slots == [] then ([], seen)
    else
      var (tree, between) := if slots[0].IsSensitive() then (Leaf(REDACTED), seen)
                             else Redacted(heap, slots[0].value, seen);
      assert heap.Keys - between <= heap.Keys - seen;
      var (rest, after) := RedactedSlots(heap, slots[1..], between);
      ([slots[0].With(tree)] + rest, after)
  }

  lemma RedactedStep(heap: Heap, value: Value, seen: set<nat>)
    requires IsGraph(heap) && Leads(heap, value)
    ensures value.Plain? ==> Redacted(heap, value, seen) == (Leaf(value.p), seen)
    ensures value.Ref? && value.id in seen ==> Redacted(heap, value, seen) == (Leaf(CIRCULAR), seen)
    ensures value.Ref? && value.id !in seen ==>
      && AllLead(heap, heap[value.id].slots)
      && var (children, after) := RedactedSlots(heap, heap[value.id].slots, seen + {value.id});
         Redacted(heap, value, seen) == (Branch(heap[value.id].kind.Flattened(), children), after)
  {
  }

  lemma NoSlots(heap: Heap, seen: set<nat>)
    requires IsGraph(heap)
    ensures RedactedSlots(heap, [], seen) == ([], seen)
  {
  }

  lemma RedactedFrom(heap: Heap, slots: seq<Slot<Value>>, i: nat, seen: set<nat>)
    requires IsGraph(heap) && AllLead(heap, slots) && i < |slots|
    ensures
      var (tree, between) := if slots[i].IsSensitive() then (Leaf(REDACTED), seen)
                             else Redacted(heap, slots[i].value, seen);
      var (rest, after) := RedactedSlots(heap, slots[i + 1..], between);
      RedactedSlots(heap, slots[i..], seen) == ([slots[i].With(tree)] + rest, after)
  {
    hide IsGraph, Redacted, HoldsSecret;
    assert slots[i..][0] == slots[i] && slots[i..][1..] == slots[i + 1..];
  }

  /** The walk itself: one shared `seen` set, filled in as containers are met. */
  class Walk {
    var seen: set<nat>

    constructor ()
      ensures seen == {}
    {
      seen := {};
    }

    method Redact(heap: Heap, value: Value) returns (result: Tree)
      requires IsGraph(heap) && Leads(heap, value)
      modifies this
      ensures (result, seen) == Redacted(heap, value, old(seen))
      ensures IsRedactionOf(result, heap, value, old(seen))
      ensures seen == old(seen) + Opened(result, heap, value)
      decreases heap.Keys - seen
    {
      hide HoldsSecret, IsRedactionOf, Opened, AreRedactionsOf, OpenedIn, Redacted, RedactedSlots, IsGraph;
      RedactedStep(heap, value, seen);
      RedactionIsExact(heap, value, seen, Redacted(heap, value, seen).0);
      if value.Plain? {
        return Leaf(value.p);
      }
      if value.id in seen {
        return Leaf(CIRCULAR);
      }
      seen := seen + {value.id};
      var slots := heap[value.id].slots;
      ghost var whole := RedactedSlots(heap, slots, seen);
      var children: seq<Slot<Tree>> := [];
      assert slots[0..] == slots && children + whole.0 == whole.0;
      for i := 0 to |slots|
        invariant old(seen) + {value.id} <= seen
        invariant whole.0 == children + RedactedSlots(heap, slots[i..], seen).0
        invariant whole.1 == RedactedSlots(heap, slots[i..], seen).1
      {
        RedactedFrom(heap, slots, i, seen);
        var tree := Leaf(REDACTED);
        if !slots[i].IsSensitive() {
          tree := Redact(heap, slots[i].value);
        }
        ghost var rest := RedactedSlots(heap, slots[i + 1..], seen).0;
        assert children + ([slots[i].With(tree)] + rest) == children + [slots[i].With(tree)] + rest;
        children := children + [slots[i].With(tree)];
      }
      assert slots[|slots|..] == [] && children + [] == children;
      assert RedactedSlots(heap, [], seen) == ([], seen) by { NoSlots(heap, seen); }
      result := Branch(heap[value.id].kind.Flattened(), children);
    }
  }

  // ---- Every graph: an object is written out where it is first met ----

  /** The containers a tree writes out, as a rendering of `value`. */
  ghost function Opened(tree: Tree, heap: Heap, value: Value): set<nat>
    requires IsGraph(heap) && Leads(heap, value)
    decreases tree, 0
  {
    if tree.Leaf? || value.Plain? then {} else {value.id} + OpenedIn(tree.children, heap, heap[value.id].slots)
  }

  ghost function OpenedIn(children: seq<Slot<Tree>>, heap: Heap, slots: seq<Slot<Value>>): set<nat>
    requires IsGraph(heap) && AllLead(heap, slots)
    decreases children, 1
  {
    if children == [] || slots == [] then {}
    else
      assert children[0].value < children[0];
      (if HoldsSecret(slots[0]) then {} else Opened(children[0].value, heap, slots[0].value))
        + OpenedIn(children[1..], heap, slots[1..])
  }

  /**
   * Primitives as they are; an object met before, here or earlier in the walk, as "[Circular]"; any other as an array
   * or a plain object with the same slots, secrets as "[REDACTED]" and everything else as what it leads to.
   */
  ghost predicate IsRedactionOf(tree: Tree, heap: Heap, value: Value, seen: set<nat>)
    requires IsGraph(heap) && Leads(heap, value)
    decreases tree, 0
  {
    if value.Plain? then tree == Leaf(value.p)
    else if value.id in seen then tree == Leaf(Text("[Circular]"))
    else
      && tree.Branch?
      && tree.kind == (if heap[value.id].kind.Items? then Items else PlainObject)
      && AreRedactionsOf(tree.children, heap, heap[value.id].slots, seen + {value.id})
  }

  /** What the slots before one write out counts as met. */
  ghost predicate AreRedactionsOf(children: seq<Slot<Tree>>, heap: Heap, slots: seq<Slot<Value>>, seen: set<nat>)
    requires IsGraph(heap) && AllLead(heap, slots)
    decreases children, 1
  {
    && |children| == |slots|
    && forall i :: 0 <= i < |slots| ==>
         assert children[i] in children && children[i].value < children[i];
         && AreNamedAlike(children[i], slots[i])
         && if HoldsSecret(slots[i]) then children[i].value == Leaf(Text("[REDACTED]"))
            else
              var met := seen + OpenedIn(children[..i], heap, slots[..i]);
              IsRedactionOf(children[i].value, heap, slots[i].value, met)
  }

  lemma FirstOpened(children: seq<Slot<Tree>>, heap: Heap, slots: seq<Slot<Value>>, i: nat)
    requires IsGraph(heap) && AllLead(heap, slots) && i < |slots| == |children|
    ensures OpenedIn(children[..i + 1], heap, slots[..i + 1])
         == OpenedIn(children[..1], heap, slots[..1]) + OpenedIn(children[1..][..i], heap, slots[1..][..i])
    ensures OpenedIn(children[..1], heap, slots[..1])
         == if HoldsSecret(slots[0]) then {} else Opened(children[0].value, heap, slots[0].value)
  {
    hide IsGraph, HoldsSecret, Opened;
    assert children[..i + 1][1..] == children[1..][..i] && slots[..i + 1][1..] == slots[1..][..i];
    assert children[..1][1..] == [];
  }

  lemma RedactionsStep(children: seq<Slot<Tree>>, heap: Heap, slots: seq<Slot<Value>>, seen: set<nat>)
    requires IsGraph(heap) && AllLead(heap, slots) && 0 < |slots| == |children|
    ensures
      var written := if HoldsSecret(slots[0]) then {} else Opened(children[0].value, heap, slots[0].value);
      AreRedactionsOf(children, heap, slots, seen)
      <==> && AreNamedAlike(children[0], slots[0])
           && (if HoldsSecret(slots[0]) then children[0].value == Leaf(Text("[REDACTED]"))
               else IsRedactionOf(children[0].value, heap, slots[0].value, seen))
           && AreRedactionsOf(children[1..], heap, slots[1..], seen + written)
  {
    hide IsGraph, HoldsSecret, Opened, IsRedactionOf;
    var written := if HoldsSecret(slots[0]) then {} else Opened(children[0].value, heap, slots[0].value);
    assert OpenedIn(children[..0], heap, slots[..0]) == {} && seen + {} == seen;
    forall i | 0 <= i < |slots| - 1
      ensures seen + OpenedIn(children[..i + 1], heap, slots[..i + 1])
           == seen + written + OpenedIn(children[1..][..i], heap, slots[1..][..i])
    {
      FirstOpened(children, heap, slots, i);
    }
    hide OpenedIn;
    var rest, later := children[1..], slots[1..];
    if AreRedactionsOf(children, heap, slots, seen) {
      forall i | 0 <= i < |later|
        ensures AreNamedAlike(rest[i], later[i])
        ensures if HoldsSecret(later[i]) then rest[i].value == Leaf(Text("[REDACTED]"))
                else IsRedactionOf(rest[i].value, heap, later[i].value,
                                   seen + written + OpenedIn(rest[..i], heap, later[..i]))
      {
        assert rest[i] == children[i + 1] && later[i] == slots[i + 1];
      }
    }
    if AreRedactionsOf(rest, heap, later, seen + written) {
      forall i | 1 <= i < |slots|
        ensures AreNamedAlike(children[i], slots[i])
        ensures if HoldsSecret(slots[i]) then children[i].value == Leaf(Text("[REDACTED]"))
                else IsRedactionOf(children[i].value, heap, slots[i].value,
                                   seen + OpenedIn(children[..i], heap, slots[..i]))
      {
        assert children[i] == rest[i - 1] && slots[i] == later[i - 1] && i - 1 + 1 == i;
      }
    }
  }

  /** On every graph, cyclic or shared, exactly one tree is the redaction, and the walk returns it. */
  lemma {:induction false} RedactionIsExact(heap: Heap, value: Value, seen: set<nat>, tree: Tree)
    requires IsGraph(heap) && Leads(heap, value)
    ensures IsRedactionOf(tree, heap, value, seen) <==> tree == Redacted(heap, value, seen).0
    ensures Redacted(heap, value, seen).1 == seen + Opened(Redacted(heap, value, seen).0, heap, value)
    decreases heap.Keys - seen, 0
  {
    if value.Ref? && value.id !in seen {
      hide IsGraph, AreRedactionsOf, RedactedSlots, OpenedIn;
      var slots, met := heap[value.id].slots, seen + {value.id};
      var (children, after) := RedactedSlots(heap, slots, met);
      SlotRedactionsAreExact(heap, slots, met, children);
      if tree.Branch? {
        SlotRedactionsAreExact(heap, slots, met, tree.children);
      }
    }
  }

  lemma {:induction false} SlotRedactionsAreExact(heap: Heap, slots: seq<Slot<Value>>, seen: set<nat>,
                                                  children: seq<Slot<Tree>>)
    requires IsGraph(heap) && AllLead(heap, slots)
    ensures AreRedactionsOf(children, heap, slots, seen) <==> children == RedactedSlots(heap, slots, seen).0
    ensures RedactedSlots(heap, slots, seen).1 == seen + OpenedIn(RedactedSlots(heap, slots, seen).0, heap, slots)
    decreases heap.Keys - seen, |slots|
  {
    if slots == [] {
      assert seen + {} == seen;
    } else {
      hide HoldsSecret, Opened, IsRedactionOf, AreRedactionsOf, Redacted, AreNamedAlike, RedactedSlots, IsGraph;
      var (tree, between) := if slots[0].IsSensitive() then (Leaf(REDACTED), seen)
                             else Redacted(heap, slots[0].value, seen);
      var (rest, after) := RedactedSlots(heap, slots[1..], between);
      RedactedSlotsStep(heap, slots, seen, children);
      var result := RedactedSlots(heap, slots, seen).0;
      RedactedSlotsStep(heap, slots, seen, result);
      SlotRedactionsAreExact(heap, slots[1..], between, rest);
      if !slots[0].IsSensitive() {
        RedactionIsExact(heap, slots[0].value, seen, tree);
      }
      assert seen + {} == seen;
      if |children| == |slots| {
        if !slots[0].IsSensitive() {
          RedactionIsExact(heap, slots[0].value, seen, children[0].value);
        }
        SlotRedactionsAreExact(heap, slots[1..], between, children[1..]);
        RedactionsStep(children, heap, slots, seen);
      }
    }
  }

  lemma RedactedSlotsStep(heap: Heap, slots: seq<Slot<Value>>, seen: set<nat>, children: seq<Slot<Tree>>)
    requires IsGraph(heap) && AllLead(heap, slots) && slots != []
    ensures
      var (tree, between) := if slots[0].IsSensitive() then (Leaf(REDACTED), seen)
                             else Redacted(heap, slots[0].value, seen);
      var (rest, after) := RedactedSlots(heap, slots[1..], between);
      && heap.Keys - between <= heap.Keys - seen
      && RedactedSlots(heap, slots, seen).1 == after
      && (children == RedactedSlots(heap, slots, seen).0
          <==> && |children| == |slots| && AreNamedAlike(children[0], slots[0])
               && children[0].value == tree && children[1..] == rest)
  {
    hide HoldsSecret, Redacted, IsGraph;
    var result := RedactedSlots(heap, slots, seen).0;
    if |children| == |slots| {
      HeadsAndTails(children, result);
    }
  }

  // ---- Nothing sensitive comes out ----

  /** Every sensitive property holds the marker and nothing else. */
  predicate IsClean(tree: Tree) {
    tree.Branch? ==>
      forall slot <- tree.children ::
        if HoldsSecret(slot) then slot.value == Leaf(Text("[REDACTED]")) else IsClean(slot.value)
  }

  lemma {:induction false} RedactedIsClean(heap: Heap, value: Value, seen: set<nat>)
    requires IsGraph(heap) && Leads(heap, value)
    ensures IsClean(Redacted(heap, value, seen).0)
    decreases heap.Keys - seen, 0
  {
    if value.Ref? && value.id !in seen {
      SlotsAreClean(heap, heap[value.id].slots, seen + {value.id});
    }
  }

  lemma {:induction false} SlotsAreClean(heap: Heap, slots: seq<Slot<Value>>, seen: set<nat>)
    requires IsGraph(heap) && AllLead(heap, slots)
    ensures forall slot <- RedactedSlots(heap, slots, seen).0 ::
              if HoldsSecret(slot) then slot.value == Leaf(Text("[REDACTED]")) else IsClean(slot.value)
    decreases heap.Keys - seen, |slots|
  {
    if slots != [] {
      var between := if slots[0].IsSensitive() then seen else Redacted(heap, slots[0].value, seen).1;
      assert heap.Keys - between <= heap.Keys - seen;
      if !slots[0].IsSensitive() {
        RedactedIsClean(heap, slots[0].value, seen);
      }
      SlotsAreClean(heap, slots[1..], between);
    }
  }

  // ---- What is stored under a sensitive key has no influence ----

  /** Slots alike in everything but the values of sensitive properties; the visible values stay inside `ids`. */
  predicate SameExceptSecrets(a: seq<Slot<Value>>, b: seq<Slot<Value>>, ids: set<nat>) {
    |a| == |b| && forall i :: 0 <= i < |a| ==>
      && AreNamedAlike(a[i], b[i])
      && (!HoldsSecret(a[i]) ==> a[i].value == b[i].value && (a[i].value.Ref? ==> a[i].value.id in ids))
  }

  /** Two graphs that agree, up to secrets, on containers reachable without passing a sensitive key. */
  predicate AgreeExceptSecrets(g: Heap, h: Heap, ids: set<nat>) {
    forall id <- ids ::
      && id in g && id in h && (g[id].kind.Items? <==> h[id].kind.Items?)
      && SameExceptSecrets(g[id].slots, h[id].slots, ids)
  }

  lemma {:induction false} SecretsDoNotMatter(g: Heap, h: Heap, ids: set<nat>, value: Value, seen: set<nat>)
    requires IsGraph(g) && IsGraph(h) && AgreeExceptSecrets(g, h, ids)
    requires value.Ref? ==> value.id in ids
    ensures Redacted(g, value, seen) == Redacted(h, value, seen)
    decreases g.Keys - seen, 0
  {
    if value.Ref? && value.id !in seen {
      SecretSlotsDoNotMatter(g, h, ids, g[value.id].slots, h[value.id].slots, seen + {value.id});
    }
  }

  lemma {:induction false} SecretSlotsDoNotMatter(g: Heap, h: Heap, ids: set<nat>, a: seq<Slot<Value>>,
                                                  b: seq<Slot<Value>>, seen: set<nat>)
    requires IsGraph(g) && IsGraph(h) && AgreeExceptSecrets(g, h, ids)
    requires AllLead(g, a) && AllLead(h, b) && SameExceptSecrets(a, b, ids)
    ensures RedactedSlots(g, a, seen) == RedactedSlots(h, b, seen)
    decreases g.Keys - seen, |a|
  {
    if a != [] {
      var between := if a[0].IsSensitive() then seen else Redacted(g, a[0].value, seen).1;
      assert g.Keys - between <= g.Keys - seen;
      if !a[0].IsSensitive() {
        SecretsDoNotMatter(g, h, ids, a[0].value, seen);
      }
      SecretSlotsDoNotMatter(g, h, ids, a[1..], b[1..], between);
    }
  }

  // ---- Acyclic data: exact unless something visible is shared ----

  /**
   * An acyclic value laid out as a tree, each container with its identity; a shared one appears repeatedly. What is
   * stored under a sensitive key is not laid out: it may be cyclic, and any layout stands for it.
   */
  datatype Layout = Bottom(p: Primitive) | At(id: nat, kind: Kind, children: seq<Slot<Layout>>)

  predicate IsLayoutOf(layout: Layout, heap: Heap, value: Value)
    decreases layout
  {
    match layout
    case Bottom(p) => value == Plain(p)
    case At(id, kind, children) =>
      && value == Ref(id) && id in heap && heap[id].kind == kind
      && |children| == |heap[id].slots|
      && forall i :: 0 <= i < |children| ==>
           && AreNamedAlike(children[i], heap[id].slots[i])
           && (HoldsSecret(children[i]) || IsLayoutOf(children[i].value, heap, heap[id].slots[i].value))
  }

  /** The same data without identities. */
  function Contents(layout: Layout): Tree {
    match layout
    case Bottom(p) => Leaf(p)
    case At(_, kind, children) =>
      Branch(kind, seq(|children|, i requires 0 <= i < |children| => children[i].With(Contents(children[i].value))))
  }

  /** The data with sensitive properties masked: what redaction is meant to return. */
  function Masked(layout: Layout): Tree
    decreases layout, 0
  {
    match layout
    case Bottom(p) => Leaf(p)
    case At(_, kind, children) => Branch(kind, MaskedSlots(children))
  }

  function MaskedSlots(slots: seq<Slot<Layout>>): (masked: seq<Slot<Tree>>)
    ensures |masked| == |slots|
    decreases slots, 1
  {
    if slots == [] then []
    else
      assert slots[0].value < slots[0];
      [slots[0].With(if HoldsSecret(slots[0]) then Leaf(Text("[REDACTED]")) else Masked(slots[0].value))]
        + MaskedSlots(slots[1..])
  }

  /** The containers met without passing a sensitive key. */
  function Visible(layout: Layout): set<nat>
    decreases layout, 0
  {
    match layout
    case Bottom(_) => {}
    case At(id, _, children) => {id} + VisibleIn(children)
  }

  function VisibleIn(slots: seq<Slot<Layout>>): set<nat>
    decreases slots, 1
  {
    if slots == [] then {}
    else
      assert slots[0].value < slots[0];
      (if HoldsSecret(slots[0]) then {} else Visible(slots[0].value)) + VisibleIn(slots[1..])
  }

  /** No container is visible in two places. */
  predicate NothingShared(layout: Layout)
    decreases layout, 0
  {
    match layout
    case Bottom(_) => true
    case At(id, _, children) => id !in VisibleIn(children) && NothingSharedIn(children)
  }

  predicate NothingSharedIn(slots: seq<Slot<Layout>>)
    decreases slots, 1
  {
    slots != [] ==>
      assert slots[0].value < slots[0];
      && (HoldsSecret(slots[0]) || (NothingShared(slots[0].value) && Visible(slots[0].value) !! VisibleIn(slots[1..])))
      && NothingSharedIn(slots[1..])
  }

  predicate AreLayoutsOf(layouts: seq<Slot<Layout>>, heap: Heap, slots: seq<Slot<Value>>) {
    |layouts| == |slots| && forall i :: 0 <= i < |layouts| ==>
      && AreNamedAlike(layouts[i], slots[i])
      && (HoldsSecret(layouts[i]) || IsLayoutOf(layouts[i].value, heap, slots[i].value))
  }

  /** None of these is a Date, Map, Set, Error or class instance. */
  predicate ArePlain(heap: Heap, ids: set<nat>) {
    forall id <- ids :: id in heap ==> !heap[id].kind.Instance?
  }

  /**
   * Acyclic data comes back masked and otherwise unchanged exactly when no container is visible twice
   * or was seen before, and every visible one is an array or a plain object.
   */
  lemma {:induction false} RedactionIsMasking(heap: Heap, value: Value, layout: Layout, seen: set<nat>)
    requires IsGraph(heap) && Leads(heap, value) && IsLayoutOf(layout, heap, value)
    ensures Redacted(heap, value, seen).0 == Masked(layout)
       <==> NothingShared(layout) && Visible(layout) !! seen && ArePlain(heap, Visible(layout))
    ensures Redacted(heap, value, seen).0 == Masked(layout) ==> Redacted(heap, value, seen).1 == seen + Visible(layout)
    decreases layout, 0
  {
    if layout.At? && layout.id !in seen {
      SlotsAreMasked(heap, heap[layout.id].slots, layout.children, seen + {layout.id});
    }
  }

  lemma {:induction false} SlotsAreMasked(heap: Heap, slots: seq<Slot<Value>>, layouts: seq<Slot<Layout>>,
                                          seen: set<nat>)
    requires IsGraph(heap) && AllLead(heap, slots) && AreLayoutsOf(layouts, heap, slots)
    ensures RedactedSlots(heap, slots, seen).0 == MaskedSlots(layouts)
       <==> NothingSharedIn(layouts) && VisibleIn(layouts) !! seen && ArePlain(heap, VisibleIn(layouts))
    ensures RedactedSlots(heap, slots, seen).0 == MaskedSlots(layouts)
         ==> RedactedSlots(heap, slots, seen).1 == seen + VisibleIn(layouts)
    decreases layouts, 1
  {
    if layouts != [] {
      assert layouts[0].value < layouts[0];
      var slot, layout := slots[0], layouts[0];
      hide IsGraph, IsLayoutOf, Redacted, Masked, Visible, NothingShared;
      var between := seen;
      if !slot.IsSensitive() {
        RedactionIsMasking(heap, slot.value, layout.value, seen);
        between := Redacted(heap, slot.value, seen).1;
      }
      SlotsAreMasked(heap, slots[1..], layouts[1..], between);
      HeadsAndTails(RedactedSlots(heap, slots, seen).0, MaskedSlots(layouts));
    }
  }

  lemma HeadsAndTails<T>(a: seq<T>, b: seq<T>)
    requires a != [] && b != []
    ensures a == b <==> a[0] == b[0] && a[1..] == b[1..]
  {
    assert a == [a[0]] + a[1..] && b == [b[0]] + b[1..];
  }

  predicate HasNoSecrets(layout: Layout) {
    layout.At? ==> forall slot <- layout.children :: !HoldsSecret(slot) && HasNoSecrets(slot.value)
  }

  lemma {:induction false} NothingToMask(layout: Layout)
    requires HasNoSecrets(layout)
    ensures Masked(layout) == Contents(layout)
  {
    if layout.At? {
      forall i | 0 <= i < |layout.children|
        ensures Masked(layout.children[i].value) == Contents(layout.children[i].value)
      {
        assert layout.children[i] in layout.children;
        NothingToMask(layout.children[i].value);
      }
      MaskedSlotsByIndex(layout.children);
    }
  }

  lemma {:induction false} MaskedSlotsByIndex(slots: seq<Slot<Layout>>)
    ensures forall i :: 0 <= i < |slots| ==>
              MaskedSlots(slots)[i]
              == slots[i].With(if HoldsSecret(slots[i]) then Leaf(Text("[REDACTED]")) else Masked(slots[i].value))
  {
    hide Masked;
    if slots != [] {
      MaskedSlotsByIndex(slots[1..]);
    }
  }

  /** A tree without sensitive keys is returned as it is exactly when it is made of arrays and plain objects. */
  lemma PlainTreesAreUnchanged(heap: Heap, value: Value, layout: Layout)
    requires IsGraph(heap) && Leads(heap, value) && IsLayoutOf(layout, heap, value)
    requires NothingShared(layout) && HasNoSecrets(layout)
    ensures Redacted(heap, value, {}).0 == Contents(layout) <==> ArePlain(heap, Visible(layout))
  {
    RedactionIsMasking(heap, value, layout, {});
    NothingToMask(layout);
  }

  lemma LastSlot(heap: Heap, slot: Slot<Value>, seen: set<nat>)
    requires IsGraph(heap) && Leads(heap, slot.value) && !slot.IsSensitive()
    ensures RedactedSlots(heap, [slot], seen)
         == ([slot.With(Redacted(heap, slot.value, seen).0)], Redacted(heap, slot.value, seen).1)
  {
    var (tree, after) := Redacted(heap, slot.value, seen);
    assert [slot][1..] == [] && RedactedSlots(heap, [], after) == ([], after);
    assert [slot.With(tree)] + [] == [slot.With(tree)];
  }

  /** Sharing alone, without any cycle, is already reported as circular. */
  lemma SharedIsReportedCircular()
    ensures var heap: Heap := map[
        0 := Container(PlainObject, [Property("a", Ref(1)), Property("b", Ref(1))]),
        1 := Container(Items, [])];
      && IsGraph(heap)
      && Redacted(heap, Ref(0), {}).0
         == Branch(PlainObject, [Property("a", Branch(Items, [])), Property("b", Leaf(CIRCULAR))])
  {
    var slots: seq<Slot<Value>> := [Property("a", Ref(1)), Property("b", Ref(1))];
    var heap: Heap := map[0 := Container(PlainObject, slots), 1 := Container(Items, [])];
    assert !slots[0].IsSensitive() && !slots[1].IsSensitive();
    assert slots[1..] == [slots[1]] && slots[1..][1..] == [];
    assert Redacted(heap, Ref(1), {0}) == (Branch(Items, []), {0, 1}) by { assert {0} + {1} == {0, 1}; }
    assert Redacted(heap, Ref(1), {0, 1}) == (Leaf(CIRCULAR), {0, 1});
    LastSlot(heap, slots[1], {0, 1});
    assert RedactedSlots(heap, slots[1..], {0, 1}) == ([Property("b", Leaf(CIRCULAR))], {0, 1});
    assert RedactedSlots(heap, slots, {0}).0 == [Property("a", Branch(Items, [])), Property("b", Leaf(CIRCULAR))];
    assert {} + {0} == {0};
  }
}

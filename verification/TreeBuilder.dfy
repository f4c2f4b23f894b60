/** Elements and the tree builder as objects.

    The ghost fields order and model say which objects stand for which indices of the machine in module Builder:
    order lists the elements in the order of their creation. */
module TreeBuilders {
  import opened Basics
  import opened Elements
  import opened Builder

  class Element {
    var tag: Tag
    var attrib: map<string, string>
    var text: Option<string>
    var tail: Option<string>
    var children: seq<Element>

    constructor (tag: Tag, attrib: map<string, string>)
      ensures this.tag == tag && this.attrib == attrib
      ensures text == None && tail == None && children == []
    {
      this.tag, this.attrib := tag, attrib;
      text, tail, children := None, None, [];
    }

    method Append(e: Element)
      modifies this`children
      ensures children == old(children) + [e]
    {
      children := children + [e];
    }
  }

  /** The element e has the fields of the record r, child by child. */
  ghost predicate Mirrors(order: seq<Element>, e: Element, r: Rec)
    reads e
  {
    && e.tag == r.tag && e.attrib == r.attrib && e.text == r.text && e.tail == r.tail
    && |e.children| == |r.children|
    && forall j :: 0 <= j < |r.children| ==> r.children[j] < |order| && e.children[j] == order[r.children[j]]
  }

  /** The objects in order stand for the records of the store. */
  ghost predicate Stands(order: seq<Element>, store: Store)
    reads order
  {
    && |order| == |store|
    && NoDuplicates(order)
    && forall i :: 0 <= i < |order| ==> Mirrors(order, order[i], store[i])
  }

  lemma StandsWith(order: seq<Element>, e: Element, store: Store, r: Rec)
    requires |order| == |store| && NoDuplicates(order) && e !in order
    requires forall i :: 0 <= i < |order| ==> Mirrors(order + [e], order[i], store[i])
    requires Mirrors(order + [e], e, r)
    ensures Stands(order + [e], store + [r])
  {
  }

  class TreeBuilder {
    var data: seq<string>
    var elem: seq<Element>
    var last: Element?
    var tail: bool
    ghost var order: seq<Element>
    ghost var model: State

    ghost predicate Valid()
      reads this, order
    {
      && InStore(model)
      && Stands(order, model.store)
      && data == model.data && tail == model.tail
      && |elem| == |model.stack|
      && (forall i :: 0 <= i < |elem| ==> elem[i] == order[model.stack[i]])
      && (last == null <==> model.last.None?)
      && (last != null ==> last == order[model.last.value])
    }

    constructor ()
      ensures Valid() && model == FRESH && order == []
    {
      data, elem, last, tail := [], [], null, false;
      order, model := [], FRESH;
    }

    /** close: the last element, or the error of the assertion that fails. */
    method Close() returns (e: Element?, missingEndTags: bool)
      requires Valid()
      ensures missingEndTags <==> model.stack != []
      ensures e == null <==> missingEndTags || model.last.None?
      ensures e != null ==> e == order[model.last.value]
    {
      if |elem| != 0 {
        return null, true;
      }
      return last, false;
    }

    /** _flush. */
    method FlushData() returns (error: Option<Error>)
      requires Valid()
      modifies this, order
      ensures Valid() && order == old(order)
      ensures model == Flush(old(model)).state && error == Flush(old(model)).error
    {
      error := None;
      if data != [] {
        if last != null {
          var text := Join(data);
          ghost var k := model.last.value;
          if tail {
            if last.tail.Some? {
              return Some(InternalTail);
            }
            last.tail := Some(text);
            model := model.(store := model.store[k := model.store[k].(tail := Some(text))]);
          } else {
            if last.text.Some? {
              return Some(InternalText);
            }
            last.text := Some(text);
            model := model.(store := model.store[k := model.store[k].(text := Some(text))]);
          }
        }
        data := [];
        model := model.(data := []);
      }
    }

    /** data. */
    method AddData(text: string)
      requires Valid()
      modifies this
      ensures Valid() && order == old(order)
      ensures model == Step(old(model), Data(text)).state
    {
      data := data + [text];
      model := model.(data := data);
    }

    /** start; on an error nothing has been opened. */
    method StartElement(tag: Tag, attrib: map<string, string>) returns (e: Element?, error: Option<Error>)
      requires Valid()
      modifies this, order
      ensures Valid()
      ensures model == Step(old(model), Start(tag, attrib)).state
      ensures error == Step(old(model), Start(tag, attrib)).error
      ensures error.Some? ==> e == null && order == old(order)
      ensures error.None? ==> e != null && fresh(e) && order == old(order) + [e]
    {
      error := FlushData();
      if error.Some? {
        return null, error;
      }
      hide Stands;
      hide Attach;
      e := OpenElement(tag, attrib);
    }

    /** The part of start after the flush. */
    method OpenElement(tag: Tag, attrib: map<string, string>) returns (e: Element)
      requires Valid()
      modifies this, order
      ensures Valid() && fresh(e) && order == old(order) + [e]
      ensures model == State(Attach(old(model.store), old(model.stack), |old(model.store)|)
                             + [Rec(tag, attrib, None, None, [])],
                             old(model.data), old(model.stack) + [|old(model.store)|], Some(|old(model.store)|), false)
    {
      hide Stands;
      hide Attach;
      e := new Element(tag, attrib);
      assert forall i :: 0 <= i < |order| ==> order[i] != e;
      ghost var k := |model.store|;
      ghost var stack := model.stack;
      AppendToTop(e);
      last := e;
      elem := elem + [e];
      this.tail := false;
      model := State(model.store, model.data, stack + [k], Some(k), false);
      assert forall i :: 0 <= i < |stack| ==> elem[i] == order[stack[i]];
    }

    /** A new element is recorded; it becomes the last child of the innermost open element, if there is one. */
    method AppendToTop(e: Element)
      requires InStore(model) && Stands(order, model.store) && e !in order
      requires |elem| == |model.stack| && forall i :: 0 <= i < |elem| ==> elem[i] == order[model.stack[i]]
      requires e.children == [] && e.text == None && e.tail == None
      modifies `order, `model, order
      ensures order == old(order) + [e]
      ensures model == old(model).(store := Attach(old(model.store), old(model.stack), |old(model.store)|)
                                            + [Rec(e.tag, e.attrib, None, None, [])])
      ensures Stands(order, model.store)
    {
      ghost var k := |model.store|;
      ghost var store := Attach(model.store, model.stack, k);
      ghost var r := Rec(e.tag, e.attrib, None, None, []);
      LinkToTop(e);
      StandsWith(order, e, store, r);
      order := order + [e];
      model := model.(store := store + [r]);
    }

    method LinkToTop(e: Element)
      requires InStore(model) && Stands(order, model.store) && e !in order
      requires |elem| == |model.stack| && forall i :: 0 <= i < |elem| ==> elem[i] == order[model.stack[i]]
      modifies order
      ensures forall i :: 0 <= i < |order| ==>
        Mirrors(order + [e], order[i], Attach(model.store, model.stack, |model.store|)[i])
    {
      ghost var k := |model.store|;
      ghost var store := Attach(model.store, model.stack, k);
      if |elem| > 0 {
        elem[|elem| - 1].Append(e);
        ghost var top := model.stack[|elem| - 1];
        assert forall i :: 0 <= i < k && i != top ==> Mirrors(order, order[i], model.store[i]);
        assert Mirrors(order + [e], order[top], store[top]);
      }
    }

    /** The innermost open element is taken off the stack and becomes the last one. */
    method PopElement() returns (ghost k: nat)
      requires Valid() && elem != []
      modifies this
      ensures Valid() && order == old(order) && k == old(model.stack[|model.stack| - 1])
      ensures model == old(model).(stack := old(model.stack)[..|old(model.stack)| - 1], last := Some(k))
      ensures last != null && last == order[k] && last.tag == model.store[k].tag
    {
      var n := |elem| - 1;
      k := model.stack[n];
      last := elem[n];
      assert last.tag == model.store[k].tag;
      hide Stands;
      elem := elem[..n];
      model := model.(stack := model.stack[..n], last := Some(k));
    }

    /** end. */
    method EndElement(tag: Tag) returns (e: Element?, error: Option<Error>)
      requires Valid()
      modifies this, order
      ensures Valid() && order == old(order)
      ensures model == Step(old(model), End(tag)).state
      ensures error == Step(old(model), End(tag)).error
      ensures error.None? ==> model.last.Some? && e == order[model.last.value]
    {
      hide Flush;
      hide Stands;
      error := FlushData();
      if error.Some? {
        return null, error;
      }
      if |elem| == 0 {
        return null, Some(NoOpenElement);
      }
      ghost var k := PopElement();
      if last.tag != tag {
        return null, Some(EndMismatch);
      }
      this.tail := true;
      model := model.(tail := true);
      return last, None;
    }
  }
}

/**
 The style parser of the Sankey visualization: the host's style
 configuration comes as a list of sections, each a list of {id, value}
 elements, and is flattened into one dictionary from id to value in which a
 later element overwrites an earlier one with the same id.
 */
module StyleParser {

  /** One configured style option. */
  datatype Element<Id, V> = Element(id: Id, value: V)

  /** One section of the style configuration. */
  datatype Section<Id, V> = Section(elements: seq<Element<Id, V>>)

  /**
   The left fold that `parseStyle` runs over the sections: starting from
   `acc`, the elements of each section are appended in turn.
   */
  function Reduce<Id, V>(acc: seq<Element<Id, V>>, sections: seq<Section<Id, V>>): seq<Element<Id, V>>
    decreases |sections|
  {
    if sections == [] then acc else Reduce(acc + sections[0].elements, sections[1..])
  }

  /**
   The fold started from the empty list: the elements of all sections,
   section after section.
   */
  function Flatten<Id, V>(sections: seq<Section<Id, V>>): seq<Element<Id, V>>
  {
    Reduce([], sections)
  }

  /** The accumulator of the reduction stays in front of everything appended after it. */
  lemma {:induction false} ReduceAccumulates<Id, V>(acc: seq<Element<Id, V>>, sections: seq<Section<Id, V>>)
    ensures Reduce(acc, sections) == acc + Flatten(sections)
    decreases |sections|
  {
    if sections != [] {
      var e := sections[0].elements;
      ReduceAccumulates(acc + e, sections[1..]);
      ReduceAccumulates(e, sections[1..]);
      assert [] + e == e;
      var rest := Flatten(sections[1..]);
      assert acc + e + rest == acc + (e + rest);
    }
  }

  /** The ids the elements of `flat` carry. */
  function Ids<Id(==), V>(flat: seq<Element<Id, V>>): set<Id>
  {
    set k | 0 <= k < |flat| :: flat[k].id
  }

  /** The ids the elements of any section carry. */
  function SectionIds<Id(==), V>(sections: seq<Section<Id, V>>): set<Id>
  {
    set i, j | 0 <= i < |sections| && 0 <= j < |sections[i].elements| :: sections[i].elements[j].id
  }

  /**
   The dictionary that writing the elements of `flat` into an empty one, in
   order, leaves behind; its keys are exactly the ids in `flat`.
   */
  function StyleOf<Id(==), V>(flat: seq<Element<Id, V>>): (style: map<Id, V>)
    ensures style.Keys == Ids(flat)
  {
    if flat == [] then map[]
    else
      var init := flat[..|flat| - 1];
      var e := flat[|flat| - 1];
      assert Ids(flat) == Ids(init) + {e.id} by {
        assert forall k :: 0 <= k < |init| ==> init[k] == flat[k];
      }
      StyleOf(init)[e.id := e.value]
  }

  /** No element after position `k` has the id of the element at `k`. */
  predicate LastOccurrence<Id(==), V>(flat: seq<Element<Id, V>>, k: nat)
    requires k < |flat|
  {
    forall j :: k < j < |flat| ==> flat[j].id != flat[k].id
  }

  /** Last writer wins: an id is mapped to the value of its last element. */
  lemma {:induction false} LastWriterWins<Id, V>(flat: seq<Element<Id, V>>, k: nat)
    requires k < |flat| && LastOccurrence(flat, k)
    ensures flat[k].id in StyleOf(flat)
    ensures StyleOf(flat)[flat[k].id] == flat[k].value
  {
    var init := flat[..|flat| - 1];
    if k < |flat| - 1 {
      assert LastOccurrence(init, k) by {
        forall j | k < j < |init| ensures init[j].id != init[k].id {
          assert init[j] == flat[j] && init[k] == flat[k];
        }
      }
      LastWriterWins(init, k);
      assert init[k] == flat[k];
    }
  }

  /** Writing one more element updates its id and nothing else. */
  lemma StyleOfSnoc<Id, V>(x: seq<Element<Id, V>>, e: Element<Id, V>)
    ensures StyleOf(x + [e]) == StyleOf(x)[e.id := e.value]
  {
    assert (x + [e])[..|x|] == x;
  }

  /**
   Writing the elements of `x` and then those of `y` leaves the dictionary of
   `x` overridden by the dictionary of `y`.
   */
  lemma {:induction false} StyleOfAppend<Id, V>(x: seq<Element<Id, V>>, y: seq<Element<Id, V>>)
    ensures StyleOf(x + y) == StyleOf(x) + StyleOf(y)
    decreases |y|
  {
    if y == [] {
      assert x + y == x;
    } else {
      var y', e := y[..|y| - 1], y[|y| - 1];
      StyleOfAppend(x, y');
      assert x + y == (x + y') + [e] && y == y' + [e];
      StyleOfSnoc(x + y', e);
      StyleOfSnoc(y', e);
      UnionUpdate(StyleOf(x), StyleOf(y'), e.id, e.value);
    }
  }

  /** Updating a union updates its right-hand side. */
  lemma UnionUpdate<K, V>(m1: map<K, V>, m2: map<K, V>, k: K, v: V)
    ensures (m1 + m2)[k := v] == m1 + m2[k := v]
  {
  }

  /** Flattening the sections of `a + b` lists the elements of `a`'s sections first. */
  lemma {:induction false} FlattenAppend<Id, V>(a: seq<Section<Id, V>>, b: seq<Section<Id, V>>)
    ensures Flatten(a + b) == Flatten(a) + Flatten(b)
    decreases |a|
  {
    if a == [] {
      assert a + b == b;
    } else {
      var e := a[0].elements;
      FlattenAppend(a[1..], b);
      assert (a + b)[0] == a[0] && (a + b)[1..] == a[1..] + b;
      assert [] + e == e;
      ReduceAccumulates(e, a[1..] + b);
      ReduceAccumulates(e, a[1..]);
      var x, y := Flatten(a[1..]), Flatten(b);
      assert e + x + y == e + (x + y);
    }
  }

  /**
   A later group of sections overrides an earlier one: the dictionary of
   `a + b` is that of `a` with every id of `b` rewritten by `b`.
   */
  lemma LaterSectionsOverride<Id, V>(a: seq<Section<Id, V>>, b: seq<Section<Id, V>>)
    ensures StyleOf(Flatten(a + b)) == StyleOf(Flatten(a)) + StyleOf(Flatten(b))
  {
    FlattenAppend(a, b);
    StyleOfAppend(Flatten(a), Flatten(b));
  }

  /** Flattening one section gives its elements in their own order. */
  lemma FlattenOne<Id, V>(s: Section<Id, V>)
    ensures Flatten([s]) == s.elements
  {
    assert [s][0] == s && [s][1..] == [];
    assert Reduce(s.elements, []) == s.elements;
    assert [] + s.elements == s.elements;
  }

  /** The ids of the flattened elements are the ids of the sections' elements. */
  lemma {:induction false} FlattenIds<Id, V>(sections: seq<Section<Id, V>>)
    ensures Ids(Flatten(sections)) == SectionIds(sections)
  {
    if sections != [] {
      var init, last := sections[..|sections| - 1], sections[|sections| - 1];
      FlattenIds(init);
      assert sections == init + [last];
      FlattenAppend(init, [last]);
      FlattenOne(last);
      IdsAppend(Flatten(init), last.elements);
      assert SectionIds(sections) == SectionIds(init) + Ids(last.elements) by {
        forall id | id in SectionIds(sections) ensures id in SectionIds(init) + Ids(last.elements) {
          var i, j :| 0 <= i < |sections| && 0 <= j < |sections[i].elements| && sections[i].elements[j].id == id;
          if i < |init| {
            assert init[i] == sections[i];
          }
        }
        forall id | id in SectionIds(init) ensures id in SectionIds(sections) {
          var i, j :| 0 <= i < |init| && 0 <= j < |init[i].elements| && init[i].elements[j].id == id;
          assert sections[i] == init[i];
        }
        forall id | id in Ids(last.elements) ensures id in SectionIds(sections) {
          var j :| 0 <= j < |last.elements| && last.elements[j].id == id;
          assert sections[|sections| - 1] == last;
        }
      }
    }
  }

  /** The ids of `x + y` are the ids of `x` and those of `y`. */
  lemma IdsAppend<Id, V>(x: seq<Element<Id, V>>, y: seq<Element<Id, V>>)
    ensures Ids(x + y) == Ids(x) + Ids(y)
  {
    forall id | id in Ids(x + y) ensures id in Ids(x) + Ids(y) {
      var k :| 0 <= k < |x + y| && (x + y)[k].id == id;
      if k >= |x| {
        assert y[k - |x|].id == id;
      }
    }
    forall id | id in Ids(y) ensures id in Ids(x + y) {
      var k :| 0 <= k < |y| && y[k].id == id;
      assert (x + y)[|x| + k] == y[k];
    }
    forall id | id in Ids(x) ensures id in Ids(x + y) {
      var k :| 0 <= k < |x| && x[k].id == id;
      assert (x + y)[k] == x[k];
    }
  }

  /**
   `parseStyle`: flattens the sections, then writes every element into an
   initially empty dictionary in turn. The keys are the ids of all sections'
   elements, and each id holds the value of its last element.
   */
  method ParseStyle<Id(==), V>(sections: seq<Section<Id, V>>) returns (style: map<Id, V>)
    ensures style == StyleOf(Flatten(sections))
    ensures style.Keys == SectionIds(sections)
    ensures forall k :: 0 <= k < |Flatten(sections)| && LastOccurrence(Flatten(sections), k) ==>
              && Flatten(sections)[k].id in style
              && style[Flatten(sections)[k].id] == Flatten(sections)[k].value
  {
    var flat := Flatten(sections);
    style := map[];
    var i := 0;
    while i < |flat|
      invariant 0 <= i <= |flat|
      invariant style == StyleOf(flat[..i])
    {
      assert flat[..i + 1][..i] == flat[..i];
      style := style[flat[i].id := flat[i].value];
      i := i + 1;
    }
    assert flat[..i] == flat;
    FlattenIds(sections);
    forall k | 0 <= k < |flat| && LastOccurrence(flat, k)
      ensures flat[k].id in style && style[flat[k].id] == flat[k].value
    {
      LastWriterWins(flat, k);
    }
  }

  /** Sections [{x: 1}] and [{y: 2}] flatten to the dictionary {x: 1, y: 2}. */
  lemma TwoSectionExample()
    ensures StyleOf(Flatten([Section([Element("x", 1)]), Section([Element("y", 2)])]))
         == map["x" := 1, "y" := 2]
  {
    var s1, s2 := Section([Element("x", 1)]), Section([Element("y", 2)]);
    FlattenAppend([s1], [s2]);
    assert [s1] + [s2] == [s1, s2];
    FlattenOne(s1);
    FlattenOne(s2);
    var flat := [Element("x", 1), Element("y", 2)];
    assert flat[..1] == [Element("x", 1)];
    assert flat[..1][..0] == [];
  }
}

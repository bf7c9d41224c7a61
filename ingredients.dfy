/** The ingredient part of `createRecipe`: each listed name is looked up in the
    ingredient table, inserted with the next serial id when missing, and linked to the
    new recipe; listing a name twice breaks the key of has_ingredient. */
module IngredientLinking {
  import opened Wrappers
  import opened StoreModel

  /** A null entry, or one that `trim()` leaves empty (every character is at most
      U+0020). */
  predicate Blank(p: Option<string>) {
    p.None? || forall i | 0 <= i < |p.value| :: p.value[i] <= ' '
  }

  /** The non-blank names listed. */
  function Names(parts: seq<Option<string>>): set<string>
    decreases |parts|
  {
    if parts == [] then {}
    else (if Blank(parts[0]) then {} else {parts[0].value}) + Names(parts[1..])
  }

  /** No non-blank name is listed twice. */
  predicate NoRepeatedName(parts: seq<Option<string>>)
    decreases |parts|
  {
    parts == [] || ((Blank(parts[0]) || parts[0].value !in Names(parts[1..])) && NoRepeatedName(parts[1..]))
  }

  /** The ingredient table, its serial and has_ingredient while the names are linked;
      `ok` turns false when an insert breaks the key of has_ingredient. */
  datatype Linking = Linking(ingredients: map<string, int>, serial: int, has: set<(int, int)>, ok: bool)

  /** The names of the ingredients has_ingredient links to recipe `rid`: what the
      join of has_ingredient with ingredient returns. */
  function IngredientNames(ingredients: map<string, int>, has: set<(int, int)>, rid: int): (names: set<string>)
    ensures names <= ingredients.Keys
  {
    set n | n in ingredients && (rid, ingredients[n]) in has
  }

  /** The names already linked to recipe `rid`. */
  function Linked(s: Linking, rid: int): set<string> {
    IngredientNames(s.ingredients, s.has, rid)
  }

  /** Ingredient ids are unique and drawn from the serial, and every link names a
      stored ingredient. */
  ghost predicate LinkingWellFormed(s: Linking) {
    && IngredientsWellFormed(s.ingredients, s.serial)
    && (forall e | e in s.has :: e.1 in s.ingredients.Values)
  }

  /** One iteration: skip a blank entry; otherwise find or insert the ingredient and
      insert the pair. */
  function LinkStep(s: Linking, rid: int, p: Option<string>): (r: Linking)
    ensures s.ingredients.Keys <= r.ingredients.Keys && s.has <= r.has
    ensures s.serial <= r.serial <= s.serial + 1
    ensures forall n | n in s.ingredients :: r.ingredients[n] == s.ingredients[n]
    ensures !Blank(p) ==> p.value in r.ingredients
  {
    if Blank(p) then s
    else
      var name := p.value;
      var ings := if name in s.ingredients then s.ingredients else s.ingredients[name := s.serial + 1];
      var serial := if name in s.ingredients then s.serial else s.serial + 1;
      var pair := (rid, ings[name]);
      if pair in s.has then Linking(ings, serial, s.has, false)
      else Linking(ings, serial, s.has + {pair}, true)
  }

  /** The whole loop, stopping at the first failed insert. */
  function Link(s: Linking, rid: int, parts: seq<Option<string>>): (r: Linking)
    ensures !s.ok ==> r == s
    ensures s.ingredients.Keys <= r.ingredients.Keys && s.has <= r.has && s.serial <= r.serial
    ensures forall n | n in s.ingredients :: r.ingredients[n] == s.ingredients[n]
    decreases |parts|
  {
    if !s.ok || parts == [] then s else Link(LinkStep(s, rid, parts[0]), rid, parts[1..])
  }

  /** Adding the link of a stored ingredient adds exactly its name to the names
      linked to the recipe, since ingredient ids are unique. */
  lemma LinkedAdd(ings: map<string, int>, has: set<(int, int)>, rid: int, name: string)
    requires name in ings
    requires forall n, m | n in ings && m in ings && n != m :: ings[n] != ings[m]
    ensures IngredientNames(ings, has + {(rid, ings[name])}, rid) == IngredientNames(ings, has, rid) + {name}
  {
    var a := IngredientNames(ings, has + {(rid, ings[name])}, rid);
    var b := IngredientNames(ings, has, rid) + {name};
    forall n | n in a ensures n in b {
      if n != name {
        assert ings[n] != ings[name];
      }
    }
  }

  /** Storing a new ingredient under an id no link uses changes no recipe's names. */
  lemma LinkedFresh(ings: map<string, int>, has: set<(int, int)>, rid: int, name: string, id: int)
    requires name !in ings
    requires forall e | e in has :: e.1 != id
    ensures IngredientNames(ings[name := id], has, rid) == IngredientNames(ings, has, rid)
  {
    var a := IngredientNames(ings[name := id], has, rid);
    forall n | n in a ensures n != name {
    }
  }

  /** The ingredient is already stored: the table is unchanged and the insert
      succeeds unless the pair is already there. */
  lemma LinkFoundSpec(s: Linking, rid: int, p: Option<string>)
    requires s.ok && LinkingWellFormed(s) && !Blank(p) && p.value in s.ingredients
    ensures var t := LinkStep(s, rid, p);
      && t.ingredients == s.ingredients && t.serial == s.serial
      && LinkingWellFormed(t)
      && (t.ok <==> p.value !in Linked(s, rid))
      && (t.ok ==> Linked(t, rid) == Linked(s, rid) + {p.value})
      && (t.ok ==> t.has == s.has + {(rid, t.ingredients[p.value])})
  {
    var t := LinkStep(s, rid, p);
    if t.ok {
      LinkedAdd(s.ingredients, s.has, rid, p.value);
    }
  }

  /** The ingredient is new: it is stored under the next serial id, which no link
      uses yet, so the insert succeeds. */
  lemma LinkInsertSpec(s: Linking, rid: int, p: Option<string>)
    requires s.ok && LinkingWellFormed(s) && !Blank(p) && p.value !in s.ingredients
    ensures var t := LinkStep(s, rid, p);
      && t.ingredients == s.ingredients[p.value := s.serial + 1] && t.serial == s.serial + 1
      && LinkingWellFormed(t)
      && t.ok && p.value !in Linked(s, rid)
      && Linked(t, rid) == Linked(s, rid) + {p.value}
      && t.has == s.has + {(rid, s.serial + 1)}
  {
    var t := LinkStep(s, rid, p);
    var name := p.value;
    var ings := s.ingredients[name := s.serial + 1];
    forall e | e in s.has ensures e.1 != s.serial + 1 {
      var m :| m in s.ingredients && s.ingredients[m] == e.1;
    }
    assert (rid, s.serial + 1) !in s.has;
    assert t == Linking(ings, s.serial + 1, s.has + {(rid, s.serial + 1)}, true);
    forall n, m | n in ings && m in ings && n != m ensures ings[n] != ings[m] {
      if n != name && m != name {
        assert ings[n] == s.ingredients[n] && ings[m] == s.ingredients[m];
      }
    }
    assert IngredientsWellFormed(ings, s.serial + 1);
    forall e | e in t.has ensures e.1 in ings.Values {
      if e in s.has {
        var m :| m in s.ingredients && s.ingredients[m] == e.1;
        assert m in ings && ings[m] == e.1;
      } else {
        assert ings[name] == e.1;
      }
    }
    LinkedFresh(s.ingredients, s.has, rid, name, s.serial + 1);
    LinkedAdd(ings, s.has, rid, name);
  }

  lemma LinkStepSpec(s: Linking, rid: int, p: Option<string>)
    requires s.ok && LinkingWellFormed(s) && !Blank(p)
    ensures var t := LinkStep(s, rid, p);
      && LinkingWellFormed(t)
      && t.serial >= s.serial
      && (t.ok <==> p.value !in Linked(s, rid))
      && (forall n | n in s.ingredients :: n in t.ingredients && t.ingredients[n] == s.ingredients[n])
      && t.ingredients.Keys == s.ingredients.Keys + {p.value}
      && (t.ok ==> Linked(t, rid) == Linked(s, rid) + {p.value})
      && (t.ok ==> t.has == s.has + {(rid, t.ingredients[p.value])})
  {
    if p.value in s.ingredients {
      LinkFoundSpec(s, rid, p);
    } else {
      LinkInsertSpec(s, rid, p);
    }
  }

  /** The loop keeps the tables well formed, never moves the serial back and never
      changes the id of a stored ingredient, whether it succeeds or not. */
  lemma {:induction false} LinkKeeps(s: Linking, rid: int, parts: seq<Option<string>>)
    requires s.ok && LinkingWellFormed(s)
    ensures var t := Link(s, rid, parts);
      && LinkingWellFormed(t)
      && t.serial >= s.serial
      && (forall n | n in s.ingredients :: n in t.ingredients && t.ingredients[n] == s.ingredients[n])
    decreases |parts|
  {
    if parts != [] && !Blank(parts[0]) {
      var s1 := LinkStep(s, rid, parts[0]);
      LinkStepSpec(s, rid, parts[0]);
      if s1.ok {
        LinkKeeps(s1, rid, parts[1..]);
      }
    } else if parts != [] {
      LinkKeeps(s, rid, parts[1..]);
    }
  }

  /** The loop succeeds exactly when no name is listed twice and none is already
      linked to the recipe. */
  lemma {:induction false} LinkOk(s: Linking, rid: int, parts: seq<Option<string>>)
    requires s.ok && LinkingWellFormed(s)
    ensures Link(s, rid, parts).ok <==> NoRepeatedName(parts) && Names(parts) !! Linked(s, rid)
    decreases |parts|
  {
    if parts != [] {
      var p := parts[0];
      var rest := parts[1..];
      if Blank(p) {
        LinkOk(s, rid, rest);
      } else {
        var s1 := LinkStep(s, rid, p);
        LinkStepSpec(s, rid, p);
        if s1.ok {
          LinkOk(s1, rid, rest);
        } else {
          assert p.value in Names(parts) && p.value in Linked(s, rid);
        }
      }
    }
  }

  /** After a successful loop every listed name is stored and linked to the recipe. */
  lemma {:induction false} LinkAdds(s: Linking, rid: int, parts: seq<Option<string>>)
    requires s.ok && LinkingWellFormed(s)
    requires Link(s, rid, parts).ok
    ensures var t := Link(s, rid, parts);
      && t.ingredients.Keys == s.ingredients.Keys + Names(parts)
      && Linked(t, rid) == Linked(s, rid) + Names(parts)
    decreases |parts|
  {
    if parts != [] {
      var p := parts[0];
      var rest := parts[1..];
      if Blank(p) {
        LinkAdds(s, rid, rest);
        assert Names(parts) == Names(rest);
      } else {
        var s1 := LinkStep(s, rid, p);
        LinkStepWellFormed(s, rid, p);
        LinkAdds(s1, rid, rest);
        LinkAddsCons(s, s1, Link(s1, rid, rest), rid, p, Names(rest));
        assert Names(parts) == {p.value} + Names(rest);
      }
    }
  }

  lemma LinkStepWellFormed(s: Linking, rid: int, p: Option<string>)
    requires s.ok && LinkingWellFormed(s) && !Blank(p)
    ensures LinkingWellFormed(LinkStep(s, rid, p))
  {
    LinkStepSpec(s, rid, p);
  }

  /** One successful step followed by the rest of the loop adds the step's name to
      what the rest adds. */
  lemma LinkAddsCons(s: Linking, s1: Linking, t: Linking, rid: int, p: Option<string>, rest: set<string>)
    requires s.ok && LinkingWellFormed(s) && !Blank(p)
    requires s1 == LinkStep(s, rid, p) && s1.ok
    requires t.ingredients.Keys == s1.ingredients.Keys + rest
    requires Linked(t, rid) == Linked(s1, rid) + rest
    ensures t.ingredients.Keys == s.ingredients.Keys + ({p.value} + rest)
    ensures Linked(t, rid) == Linked(s, rid) + ({p.value} + rest)
  {
    LinkStepSpec(s, rid, p);
  }

  /** The has_ingredient rows linking recipe `rid` to the named ingredients. */
  function Links(ings: map<string, int>, rid: int, names: set<string>): set<(int, int)>
    requires names <= ings.Keys
  {
    set n | n in names :: (rid, ings[n])
  }

  lemma LinksSplit(ings: map<string, int>, rid: int, a: string, rest: set<string>)
    requires {a} + rest <= ings.Keys
    ensures Links(ings, rid, {a} + rest) == {(rid, ings[a])} + Links(ings, rid, rest)
  {
  }

  /** A successful loop adds to has_ingredient exactly one link per listed name. */
  lemma {:induction false} LinkPairs(s: Linking, rid: int, parts: seq<Option<string>>)
    requires s.ok && LinkingWellFormed(s)
    requires Link(s, rid, parts).ok
    ensures var t := Link(s, rid, parts);
      && Names(parts) <= t.ingredients.Keys
      && t.has == s.has + Links(t.ingredients, rid, Names(parts))
    decreases |parts|
  {
    if parts != [] {
      var p := parts[0];
      var rest := parts[1..];
      if Blank(p) {
        LinkPairs(s, rid, rest);
        assert Names(parts) == Names(rest);
      } else {
        var s1 := LinkStep(s, rid, p);
        var t := Link(s1, rid, rest);
        assert t == Link(s, rid, parts);
        LinkStepSpec(s, rid, p);
        assert s1.ok;
        var pair := (rid, s1.ingredients[p.value]);
        assert s1.has == s.has + {pair};
        LinkPairs(s1, rid, rest);
        LinkKeeps(s1, rid, rest);
        assert t.ingredients[p.value] == s1.ingredients[p.value];
        assert Names(parts) == {p.value} + Names(rest);
        LinksSplit(t.ingredients, rid, p.value, Names(rest));
      }
    }
  }
}

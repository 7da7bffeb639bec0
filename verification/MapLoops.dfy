/** Loops that visit the keys of a map in any order, and the maps they build. */
module MapLoops {

  // The map with one value for all of the keys.
  function Assign<T>(m: map<string, T>, ids: set<string>, value: T): map<string, T> {
    if ids == {} then m else m + map id | id in ids :: value
  }

  lemma DropOne<T>(m: map<string, T>, done: set<string>, id: string)
    ensures (m - done) - {id} == m - (done + {id})
  {
  }

  lemma AssignOne<T>(m: map<string, T>, done: set<string>, id: string, value: T)
    ensures Assign(m, done, value)[id := value] == Assign(m, done + {id}, value)
  {
  }

  lemma DropNone<T>(m: map<string, T>)
    ensures m - {} == m
  {
  }

  lemma AssignNone<T>(m: map<string, T>, value: T)
    ensures Assign(m, {}, value) == m
  {
  }

  ghost predicate PartlyAt(target: set<string>, done: set<string>, todo: set<string>, id: string) {
    (id in target ==> id in done || id in todo) && (id in done ==> id in target && id !in todo)
  }

  // A loop over the keys in todo that has done its part of a target set.
  ghost predicate Partly(target: set<string>, done: set<string>, todo: set<string>) {
    forall id :: PartlyAt(target, done, todo, id)
  }

  lemma TakeKey(target: set<string>, done: set<string>, todo: set<string>, id: string)
    requires Partly(target, done, todo) && id in todo
    ensures id !in done
    ensures id in target ==> Partly(target, done + {id}, todo - {id}) && |done + {id}| == |done| + 1
    ensures id !in target ==> Partly(target, done, todo - {id})
  {
    assert PartlyAt(target, done, todo, id);
    forall x
      ensures id in target ==> PartlyAt(target, done + {id}, todo - {id}, x)
      ensures id !in target ==> PartlyAt(target, done, todo - {id}, x)
    {
      assert PartlyAt(target, done, todo, x);
    }
  }

  lemma PartlySubset(target: set<string>, done: set<string>, todo: set<string>)
    requires Partly(target, done, todo)
    ensures done <= target
  {
    forall id <- done
      ensures id in target
    {
      assert PartlyAt(target, done, todo, id);
    }
  }

  lemma AllTaken(target: set<string>, done: set<string>)
    requires Partly(target, done, {})
    ensures done == target
  {
    forall id
      ensures id in done <==> id in target
    {
      assert PartlyAt(target, done, {}, id);
    }
  }
}

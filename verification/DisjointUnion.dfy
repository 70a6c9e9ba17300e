/** A lock set kept as the disjoint union of what its holders hold. */
module DisjointUnion {
  import opened Core

  ghost predicate IsHeld<K(!new)>(parts: map<K, set<Pubkey>>, a: Pubkey) {
    exists id :: id in parts && a in parts[id]
  }

  ghost predicate IsDisjointUnion<K(!new)>(total: set<Pubkey>, parts: map<K, set<Pubkey>>) {
    && (forall a :: a in total <==> IsHeld(parts, a))
    && (forall i, j :: i in parts && j in parts && i != j ==> parts[i] !! parts[j])
  }

  lemma PartIsInside<K(!new)>(total: set<Pubkey>, parts: map<K, set<Pubkey>>, id: K)
    requires IsDisjointUnion(total, parts) && id in parts
    ensures parts[id] <= total
  {
    forall a | a in parts[id] ensures a in total {
      assert IsHeld(parts, a);
    }
  }

  lemma AddPart<K(!new)>(total: set<Pubkey>, parts: map<K, set<Pubkey>>, id: K, part: set<Pubkey>)
    requires IsDisjointUnion(total, parts) && id !in parts && part !! total
    ensures IsDisjointUnion(total + part, parts[id := part])
  {
    var next := parts[id := part];
    forall a ensures a in total + part <==> IsHeld(next, a) {
      if a in part {
        assert next[id] == part;
      } else if a in total {
        var i :| i in parts && a in parts[i];
        assert i in next && a in next[i];
      }
      if IsHeld(next, a) && a !in part {
        var i :| i in next && a in next[i];
        assert i in parts && a in parts[i];
      }
    }
    forall i | i in parts ensures parts[i] !! part {
      PartIsInside(total, parts, i);
    }
  }

  lemma RemovePart<K(!new)>(total: set<Pubkey>, parts: map<K, set<Pubkey>>, id: K)
    requires IsDisjointUnion(total, parts) && id in parts
    ensures IsDisjointUnion(total - parts[id], parts - {id})
  {
    var next := parts - {id};
    forall a ensures a in total - parts[id] <==> IsHeld(next, a) {
      if a in total - parts[id] {
        var i :| i in parts && a in parts[i];
        assert i in next && a in next[i];
      }
      if IsHeld(next, a) {
        var i :| i in next && a in next[i];
        assert i in parts && i != id;
      }
    }
  }
}

/**
 * Specification functions over the ordered list of stored entities, and what
 * is proved about them. The repository's methods are specified by these.
 */
module EntityLists {
  import opened Wrappers
  import opened Entities

  /** Some stored entity carries `id` (LINQ `Any(x => x.Id == id)`). */
  predicate HasId<P>(s: seq<Entity<P>>, id: Guid) {
    exists i :: 0 <= i < |s| && s[i].id == id
  }

  /** No two stored entities share an identifier. */
  predicate UniqueIds<P>(s: seq<Entity<P>>) {
    forall i, j :: 0 <= i < j < |s| ==> s[i].id != s[j].id
  }

  /** `i` is the position of the first entity carrying `id`. */
  predicate IsFirstWithId<P>(s: seq<Entity<P>>, id: Guid, i: int) {
    0 <= i < |s| && s[i].id == id && forall j :: 0 <= j < i ==> s[j].id != id
  }

  /** `r` keeps some of the elements of `s`, in their relative order. */
  ghost predicate IsSubsequence<T>(r: seq<T>, s: seq<T>)
    decreases |s|
  {
    r == [] || (s != [] && ((r[0] == s[0] && IsSubsequence(r[1..], s[1..])) || IsSubsequence(r, s[1..])))
  }

  /** The first entity carrying `id`, or none (LINQ `FirstOrDefault(x => x.Id == id)`). */
  function FirstWithId<P>(s: seq<Entity<P>>, id: Guid): (r: Option<Entity<P>>)
    ensures r.None? <==> !HasId(s, id)
    ensures r.Some? ==> r.value in s && r.value.id == id
  {
    if s == [] then None
    else if s[0].id == id then Some(s[0])
    else
      var r := FirstWithId(s[1..], id);
      assert HasId(s[1..], id) <==> HasId(s, id) by {
        assert forall i :: 0 <= i < |s[1..]| ==> s[1..][i] == s[i + 1];
      }
      r
  }

  /** The list with every entity carrying `id` removed (`List.RemoveAll(x => x.Id == id)`). */
  function WithoutId<P>(s: seq<Entity<P>>, id: Guid): (r: seq<Entity<P>>)
    ensures |r| <= |s|
    ensures forall k :: 0 <= k < |r| ==> r[k].id != id
    ensures forall k :: 0 <= k < |r| ==> r[k] in s
    ensures forall k :: 0 <= k < |s| && s[k].id != id ==> s[k] in r
  {
    if s == [] then []
    else if s[0].id == id then WithoutId(s[1..], id)
    else [s[0]] + WithoutId(s[1..], id)
  }

  /** The list with its first entity carrying `v.id` replaced by `v`; what an update is meant to do. */
  function ReplaceFirst<P>(s: seq<Entity<P>>, v: Entity<P>): (r: seq<Entity<P>>)
    ensures |r| == |s|
    ensures !HasId(s, v.id) ==> r == s
  {
    if s == [] then []
    else if s[0].id == v.id then [v] + s[1..]
    else
      assert HasId(s[1..], v.id) ==> HasId(s, v.id) by {
        assert forall i :: 0 <= i < |s[1..]| ==> s[1..][i] == s[i + 1];
      }
      assert [s[0]] + s[1..] == s;
      [s[0]] + ReplaceFirst(s[1..], v)
  }

  // ---------------------------------------------------------------------------
  // Lookup

  /** The lookup returns the entity at the first position carrying `id`. */
  lemma {:induction false} FirstWithIdIsFirst<P>(s: seq<Entity<P>>, id: Guid, i: int)
    requires IsFirstWithId(s, id, i)
    ensures FirstWithId(s, id) == Some(s[i])
  {
    if i > 0 {
      assert s[0].id != id;
      assert IsFirstWithId(s[1..], id, i - 1);
      FirstWithIdIsFirst(s[1..], id, i - 1);
    }
  }

  /** With distinct identifiers, looking an entity's identifier up finds that entity. */
  lemma FirstWithIdOfUnique<P>(s: seq<Entity<P>>, i: int)
    requires UniqueIds(s) && 0 <= i < |s|
    ensures FirstWithId(s, s[i].id) == Some(s[i])
  {
    FirstWithIdIsFirst(s, s[i].id, i);
  }

  /** Appending an entity with a fresh identifier makes a lookup of that identifier find it. */
  lemma {:induction false} FirstWithIdAfterAppend<P>(s: seq<Entity<P>>, v: Entity<P>)
    requires !HasId(s, v.id)
    ensures FirstWithId(s + [v], v.id) == Some(v)
  {
    if s == [] {
      assert s + [v] == [v];
    } else {
      assert (s + [v])[1..] == s[1..] + [v];
      assert !HasId(s[1..], v.id) by {
        forall i | 0 <= i < |s[1..]| ensures s[1..][i].id != v.id { assert s[1..][i] == s[i + 1]; }
      }
      assert s[0].id != v.id;
      FirstWithIdAfterAppend(s[1..], v);
    }
  }

  /** Appending an entity leaves the lookup of any other identifier as it was. */
  lemma {:induction false} FirstWithIdAppendOther<P>(s: seq<Entity<P>>, v: Entity<P>, id: Guid)
    requires v.id != id
    ensures FirstWithId(s + [v], id) == FirstWithId(s, id)
  {
    if s == [] {
      assert s + [v] == [v];
      assert [v][1..] == [];
    } else {
      assert (s + [v])[1..] == s[1..] + [v];
      FirstWithIdAppendOther(s[1..], v, id);
    }
  }

  // ---------------------------------------------------------------------------
  // Removal

  /** Removal distributes over concatenation, so it keeps the relative order of what it keeps. */
  lemma {:induction false} WithoutIdConcat<P>(a: seq<Entity<P>>, b: seq<Entity<P>>, id: Guid)
    ensures WithoutId(a + b, id) == WithoutId(a, id) + WithoutId(b, id)
  {
    if a == [] {
      assert a + b == b;
    } else {
      assert (a + b)[1..] == a[1..] + b;
      WithoutIdConcat(a[1..], b, id);
    }
  }

  /** Removing an identifier nobody carries changes nothing. */
  lemma {:induction false} WithoutIdAbsent<P>(s: seq<Entity<P>>, id: Guid)
    requires !HasId(s, id)
    ensures WithoutId(s, id) == s
  {
    if s != [] {
      assert s[0].id != id;
      assert !HasId(s[1..], id) by {
        forall i | 0 <= i < |s[1..]| ensures s[1..][i].id != id { assert s[1..][i] == s[i + 1]; }
      }
      WithoutIdAbsent(s[1..], id);
      assert [s[0]] + s[1..] == s;
    }
  }

  /** Removing the same identifier twice is the same as removing it once. */
  lemma {:induction false} WithoutIdIdempotent<P>(s: seq<Entity<P>>, id: Guid)
    ensures WithoutId(WithoutId(s, id), id) == WithoutId(s, id)
  {
    WithoutIdAbsent(WithoutId(s, id), id);
  }

  /** Removal keeps each entity not carrying `id` exactly as often as it occurred, and no other. */
  lemma {:induction false} WithoutIdCounts<P>(s: seq<Entity<P>>, id: Guid)
    ensures forall x :: multiset(WithoutId(s, id))[x] == if x.id == id then 0 else multiset(s)[x]
  {
    if s != [] {
      WithoutIdCounts(s[1..], id);
      assert s == [s[0]] + s[1..];
      assert multiset(s) == multiset([s[0]]) + multiset(s[1..]);
    }
  }

  /** What removal keeps is a subsequence of the original list. */
  lemma {:induction false} WithoutIdSubsequence<P>(s: seq<Entity<P>>, id: Guid)
    ensures IsSubsequence(WithoutId(s, id), s)
  {
    if s != [] {
      WithoutIdSubsequence(s[1..], id);
      if s[0].id != id {
        var r := WithoutId(s, id);
        assert r[0] == s[0] && r[1..] == WithoutId(s[1..], id);
      }
    }
  }

  /** Removal keeps identifiers distinct. */
  lemma {:induction false} WithoutIdKeepsUnique<P>(s: seq<Entity<P>>, id: Guid)
    requires UniqueIds(s)
    ensures UniqueIds(WithoutId(s, id))
  {
    if s != [] {
      assert UniqueIds(s[1..]) by {
        forall i, j | 0 <= i < j < |s[1..]| ensures s[1..][i].id != s[1..][j].id {
          assert s[1..][i] == s[i + 1] && s[1..][j] == s[j + 1];
        }
      }
      WithoutIdKeepsUnique(s[1..], id);
      if s[0].id != id {
        var t := WithoutId(s[1..], id);
        forall k | 0 <= k < |t| ensures t[k].id != s[0].id {
          assert t[k] in s[1..];
          var m :| 0 <= m < |s[1..]| && s[1..][m] == t[k];
          assert s[m + 1] == t[k];
        }
        var r := [s[0]] + t;
        forall i, j | 0 <= i < j < |r| ensures r[i].id != r[j].id {
          if i == 0 {
            assert r[j] == t[j - 1];
          } else {
            assert r[i] == t[i - 1] && r[j] == t[j - 1];
          }
        }
      }
    }
  }

  // ---------------------------------------------------------------------------
  // Appending and updating

  /** After appending, an identifier is stored exactly when it was stored before or is the appended one's. */
  lemma HasIdAppend<P>(s: seq<Entity<P>>, v: Entity<P>, id: Guid)
    ensures HasId(s + [v], id) <==> HasId(s, id) || v.id == id
  {
    var r := s + [v];
    if HasId(s, id) {
      var i :| 0 <= i < |s| && s[i].id == id;
      assert r[i] == s[i];
    }
    if v.id == id {
      assert r[|s|] == v;
    }
    if HasId(r, id) {
      var i :| 0 <= i < |r| && r[i].id == id;
      if i < |s| { assert r[i] == s[i]; }
    }
  }

  /** Appending an entity whose identifier is fresh keeps identifiers distinct. */
  lemma AppendKeepsUnique<P>(s: seq<Entity<P>>, v: Entity<P>)
    requires UniqueIds(s) && !HasId(s, v.id)
    ensures UniqueIds(s + [v])
  {
    var r := s + [v];
    forall i, j | 0 <= i < j < |r| ensures r[i].id != r[j].id {
      if j == |s| {
        assert r[i] == s[i] && r[j] == v;
      } else {
        assert r[i] == s[i] && r[j] == s[j];
      }
    }
  }

  /** Replacing the first match puts `v` at that match's position and leaves every other position alone. */
  lemma {:induction false} ReplaceFirstAt<P>(s: seq<Entity<P>>, v: Entity<P>, i: int)
    requires IsFirstWithId(s, v.id, i)
    ensures ReplaceFirst(s, v) == s[i := v]
  {
    if i == 0 {
      assert [v] + s[1..] == s[0 := v];
    } else {
      assert IsFirstWithId(s[1..], v.id, i - 1);
      ReplaceFirstAt(s[1..], v, i - 1);
      assert [s[0]] + s[1..][i - 1 := v] == s[i := v];
    }
  }

  /** After the intended update, looking the identifier up yields the new value. */
  lemma ReplaceFirstFound<P>(s: seq<Entity<P>>, v: Entity<P>, i: int)
    requires IsFirstWithId(s, v.id, i)
    ensures FirstWithId(ReplaceFirst(s, v), v.id) == Some(v)
  {
    ReplaceFirstAt(s, v, i);
    FirstWithIdIsFirst(s[i := v], v.id, i);
  }

  /** The intended update keeps identifiers distinct, since the replacement carries the replaced identifier. */
  lemma ReplaceFirstKeepsUnique<P>(s: seq<Entity<P>>, v: Entity<P>, i: int)
    requires UniqueIds(s) && IsFirstWithId(s, v.id, i)
    ensures UniqueIds(ReplaceFirst(s, v))
  {
    ReplaceFirstAt(s, v, i);
    var r := s[i := v];
    forall a, b | 0 <= a < b < |r| ensures r[a].id != r[b].id {
      assert r[a].id == s[a].id && r[b].id == s[b].id;
    }
  }

  /**
   * The update as written leaves the list as it was, so whenever the new value
   * differs from every stored entity, the lookup that follows does not return it.
   * `Repositories.StaleLookupAfterUpdate` states the same of the methods.
   */
  lemma StaleAfterUpdate<P>(s: seq<Entity<P>>, v: Entity<P>)
    requires HasId(s, v.id) && v !in s
    ensures FirstWithId(s, v.id).Some? && FirstWithId(s, v.id) != Some(v)
  {
  }
}

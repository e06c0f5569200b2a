/**
 The host's side: reference-counted byte buffers. Allocation either fails, which the store counts, or returns
 fresh zeroed bytes; a buffer may be written only while a single reference to it exists, and disappears with its
 last reference.
 */
module HostMemory {
  import opened Ranges
  import opened Bytes
  import opened Backing

  class HostStore {
    var bytes: HostBytes
    var refs: map<nat, nat>
    var next: nat
    var refusals: nat  // how often the host said no
    ghost var owners: Owners

    ghost predicate Valid()
      reads this
    {
      && refs.Keys == bytes.Keys && owners.Keys == bytes.Keys
      && forall h :: h in bytes ==> h < next && refs[h] == |owners[h]| && owners[h] != {}
    }

    lemma ValidKeys()
      requires Valid()
      ensures owners.Keys == bytes.Keys
    {
    }

    lemma CountsOwners(h: nat)
      requires Valid() && h in bytes
      ensures h in refs && h in owners && refs[h] == |owners[h]|
    {
    }

    constructor ()
      ensures Valid() && bytes == map[]
    {
      bytes, refs, next, refusals, owners := map[], map[], 0, 0, map[];
    }

    method Allocate(length: nat, ghost owner: Owner) returns (r: Option<nat>)
      requires Valid()
      modifies this
      ensures Valid()
      ensures r.None? ==> bytes == old(bytes) && owners == old(owners)
      ensures refusals == old(refusals) + (if r.None? then 1 else 0)
      ensures r.Some? ==> r.value !in old(bytes)
                          && bytes == old(bytes)[r.value := Zeros(length)]
                          && owners == old(owners)[r.value := {owner}]
                          && refs[r.value] == 1
      ensures Isolated(owner.member, old(owners), old(bytes), owners, bytes)
    {
      if * {
        refusals := refusals + 1;
        return None;
      }
      var h := next;
      assert h !in bytes;
      next := next + 1;
      bytes, refs, owners := bytes[h := Zeros(length)], refs[h := 1], owners[h := {owner}];
      r := Some(h);
    }

    /** Allocates and fills a buffer that nobody else can see yet. */
    method AllocateCopy(data: seq<Byte>, ghost owner: Owner) returns (r: Option<nat>)
      requires Valid()
      modifies this
      ensures Valid()
      ensures r.None? ==> bytes == old(bytes) && owners == old(owners)
      ensures refusals == old(refusals) + (if r.None? then 1 else 0)
      ensures r.Some? ==> r.value !in old(bytes)
                          && bytes == old(bytes)[r.value := data]
                          && owners == old(owners)[r.value := {owner}]
                          && refs[r.value] == 1
      ensures Isolated(owner.member, old(owners), old(bytes), owners, bytes)
    {
      r := Allocate(|data|, owner);
      if r.Some? {
        assert Blit(bytes[r.value], 0, data) == data;
        ghost var o, b := owners, bytes;
        Write(r.value, 0, data, owner);
        IsolatedTransitive(owner.member, old(owners), old(bytes), o, b, owners, bytes);
      }
    }

    method Share(h: nat, ghost owner: Owner)
      requires Valid() && h in bytes && owner !in owners[h]
      modifies this
      ensures Valid()
      ensures bytes == old(bytes)
      ensures owners == old(owners)[h := old(owners)[h] + {owner}]
      ensures refusals == old(refusals)
      ensures Spares(owner.member, old(owners), old(bytes), owners, bytes)
    {
      refs, owners := refs[h := refs[h] + 1], owners[h := owners[h] + {owner}];
    }

    method Release(h: nat, ghost owner: Owner)
      requires Valid() && h in bytes && owner in owners[h]
      modifies this
      ensures Valid()
      ensures old(owners)[h] != {owner} ==> bytes == old(bytes)
      ensures old(owners)[h] != {owner} ==> owners == old(owners)[h := old(owners)[h] - {owner}]
      ensures old(owners)[h] == {owner} ==> bytes == old(bytes) - {h} && owners == old(owners) - {h}
      ensures refusals == old(refusals)
      ensures Isolated(owner.member, old(owners), old(bytes), owners, bytes)
    {
      ghost var rest := owners[h] - {owner};
      assert owners[h] == rest + {owner};
      if refs[h] == 1 {
        assert rest == {};
        bytes, refs, owners := bytes - {h}, refs - {h}, owners - {h};
      } else {
        assert rest != {};
        refs, owners := refs[h := refs[h] - 1], owners[h := rest];
      }
    }

    method Write(h: nat, offset: nat, data: seq<Byte>, ghost owner: Owner)
      requires Valid() && h in bytes && refs[h] == 1 && owner in owners[h]
      requires offset + |data| <= |bytes[h]|
      modifies this`bytes
      ensures Valid()
      ensures bytes == old(bytes)[h := Blit(old(bytes)[h], offset, data)]
      ensures Isolated(owner.member, old(owners), old(bytes), owners, bytes)
    {
      SoleOwner(owners[h], owner);
      bytes := bytes[h := Blit(bytes[h], offset, data)];
    }
  }

  lemma SoleOwner(s: set<Owner>, owner: Owner)
    requires |s| == 1 && owner in s
    ensures s == {owner}
  {
    assert s == {owner} + (s - {owner});
  }
}

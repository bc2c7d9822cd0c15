/**
 * The capability list editor of the profile form: a new capability with
 * the editor's defaults is appended, one capability is replaced in a copy
 * of the list, or one is deleted by position.
 */
module CapabilityEditor {
  import opened Wrappers
  import opened Types
  import opened CapabilityLists

  /**
   * A blank capability: category `other`, reached over an API, needing human
   * approval, available around the clock, public and free. The fresh `id`
   * is a parameter.
   */
  function EmptyCapability(id: string): (c: Capability)
    ensures c.id == id && c.name == "" && c.description == "" && c.contactEndpoint == "" && c.scope == ""
    ensures c.category == Other && c.contactMethod == Api && c.approvalMode == HumanApproval
    ensures c.availability == "24/7" && c.isPublic && c.price.None?
  {
    Capability(id, "", "", Other, Api, "", HumanApproval, "", "24/7", true, None)
  }

  /** `[...capabilities, emptyCapability()]`. */
  function AddCapability(caps: seq<Capability>, id: string): (r: seq<Capability>)
    ensures |r| == |caps| + 1
    ensures r[..|caps|] == caps && r[|caps|] == EmptyCapability(id)
  {
    caps + [EmptyCapability(id)]
  }

  /** A new capability is public, so adding one puts the profile in category `other`. */
  lemma AddCapabilityListsOther(caps: seq<Capability>, id: string)
    ensures PublicCategories(AddCapability(caps, id)) == PublicCategories(caps) + {Other}
    ensures PublicCaps(AddCapability(caps, id)) == PublicCaps(caps) + [EmptyCapability(id)]
  {
    PublicCategoriesAppend(caps, EmptyCapability(id));
    PublicCapsAppend(caps, [EmptyCapability(id)]);
    assert PublicCaps([EmptyCapability(id)]) == [EmptyCapability(id)] by {
      assert [EmptyCapability(id)][1..] == [];
    }
  }

  /** Copies the list into a fresh array and assigns position `index`. */
  method UpdateCapability(caps: seq<Capability>, index: nat, cap: Capability) returns (r: seq<Capability>)
    requires index < |caps|
    ensures |r| == |caps|
    ensures r[index] == cap
    ensures forall i :: 0 <= i < |caps| && i != index ==> r[i] == caps[i]
  {
    var updated := new Capability[|caps|](i requires 0 <= i < |caps| => caps[i]);
    updated[index] := cap;
    r := updated[..];
  }

  /** `capabilities.filter((_, i) => i !== index)`, walking the list with the position of its head. */
  function DeleteFrom(caps: seq<Capability>, index: int, at: int): (r: seq<Capability>)
    ensures at <= index < at + |caps| ==> r == caps[..index - at] + caps[index - at + 1..]
    ensures !(at <= index < at + |caps|) ==> r == caps
    decreases |caps|
  {
    if caps == [] then []
    else
      var rest := DeleteFrom(caps[1..], index, at + 1);
      if at == index then
        assert rest == caps[1..];
        rest
      else
        assert caps == [caps[0]] + caps[1..];
        [caps[0]] + rest
  }

  /** Deleting position `index` removes exactly that element and keeps the rest in order; any other index changes nothing. */
  function DeleteCapability(caps: seq<Capability>, index: int): (r: seq<Capability>)
    ensures 0 <= index < |caps| ==> |r| == |caps| - 1 && r == caps[..index] + caps[index + 1..]
    ensures !(0 <= index < |caps|) ==> r == caps
  {
    DeleteFrom(caps, index, 0)
  }

  /** Deleting the capability just added gives back the list it was added to. */
  lemma DeleteAddedCapability(caps: seq<Capability>, id: string)
    ensures DeleteCapability(AddCapability(caps, id), |caps|) == caps
  {
    var added := AddCapability(caps, id);
    assert added[..|caps|] == caps;
  }
}

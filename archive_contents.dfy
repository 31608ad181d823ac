/** The vault-content helpers of the mobile app: finding the top-level group of an entry by
    walking the parent chain, and collecting the OTP codes of every unlocked vault grouped per
    source, leaving out entries that sit in the trash. */
module ArchiveContents {
  import opened Wrappers
  import opened Sequences
  import opened Facade

  /** The parent id that marks a group (or entry) as sitting at the root of the vault. */
  const RootGroupID: string := "0"
  /** The role-attribute value of the trash group. */
  const TrashRole: string := "trash"
  /** The anchored prefix of an attribute that gives the type of another property. */
  const OtpPrefix: string := "BC_ENTRY_FIELD_TYPE:"
  /** The type value marking a property as an OTP URI. */
  const OtpType: string := "otp"
  /** The property that holds an entry's title. */
  const TitleProperty: string := "title"

  // ---------------------------------------------------------------------------
  // Walking up the parent chain
  // ---------------------------------------------------------------------------

  /** What a call of the top-most-group walk does: return a group (or null), throw because a
      parent id names no group, or recurse forever because the parent chain has a cycle. */
  datatype TopMost = Returns(top: Option<Group>) | Throws(missingID: string) | Diverges

  /** `groups.find(grp => grp.id === id)`. */
  function FindGroup(groups: seq<Group>, id: string): (r: Option<Group>)
    ensures r.Some? ==> r.value in groups && r.value.id == id
  {
    Find(groups, (g: Group) => g.id == id)
  }

  /** Nothing is found exactly when no group has the id; what is found is the first group
      with it. */
  lemma FindGroupSpec(groups: seq<Group>, id: string)
    ensures FindGroup(groups, id).None? <==> forall g :: g in groups ==> g.id != id
    ensures FindGroup(groups, id).Some? ==>
              exists i :: 0 <= i < |groups| && groups[i] == FindGroup(groups, id).value &&
                forall j :: 0 <= j < i ==> groups[j].id != id
  {
    FindSpec(groups, (g: Group) => g.id == id);
  }

  function GroupIds(groups: seq<Group>): set<string>
  {
    set g | g in groups :: g.id
  }

  /** The walk from `groupID` upwards, `previous` being the group visited last and `visited` the
      ids already looked up. An id looked up twice means the chain is a cycle: the recursion of
      the source would then never reach the root. */
  function Walk(groups: seq<Group>, groupID: string, previous: Option<Group>, visited: set<string>): (w: TopMost)
    ensures w.Returns? ==>
              (groupID == RootGroupID && w.top == previous) ||
              (w.top.Some? && w.top.value in groups && w.top.value.parentID == RootGroupID)
    ensures w.Throws? ==> w.missingID != RootGroupID && FindGroup(groups, w.missingID).None?
    ensures w.Diverges? ==> groupID != RootGroupID
    decreases GroupIds(groups) - visited
  {
    if groupID == RootGroupID then Returns(previous)
    else if groupID in visited then Diverges
    else
      match FindGroup(groups, groupID)
      case None => Throws(groupID)
      case Some(g) =>
        assert groupID in GroupIds(groups);
        Walk(groups, g.parentID, Some(g), visited + {groupID})
  }

  /** `getTopMostFacadeGroup(archiveFacade, groupID)`: the top-level ancestor group of the group
      `groupID` (the group itself when its parent is the root), or null when `groupID` is the root. */
  function TopMostFacadeGroup(groups: seq<Group>, groupID: string): (w: TopMost)
    ensures (w.Returns? && w.top.None?) <==> groupID == RootGroupID
    ensures w.Returns? && w.top.Some? ==> w.top.value in groups && w.top.value.parentID == RootGroupID
    ensures w.Throws? ==> w.missingID != RootGroupID && FindGroup(groups, w.missingID).None?
  {
    Walk(groups, groupID, None, {})
  }

  /** The walk throws only on an id that no group of the list has. */
  lemma TopMostThrowsOnMissingGroup(groups: seq<Group>, groupID: string)
    requires TopMostFacadeGroup(groups, groupID).Throws?
    ensures forall g :: g in groups ==> g.id != TopMostFacadeGroup(groups, groupID).missingID
  {
    FindGroupSpec(groups, TopMostFacadeGroup(groups, groupID).missingID);
  }

  /** The source's recursion taken literally, cut off after `fuel` nested calls (None then). */
  function WalkWithin(groups: seq<Group>, groupID: string, previous: Option<Group>, fuel: nat): Option<TopMost>
    decreases fuel
  {
    if groupID == RootGroupID then Some(Returns(previous))
    else
      match FindGroup(groups, groupID)
      case None => Some(Throws(groupID))
      case Some(g) => if fuel == 0 then None else WalkWithin(groups, g.parentID, Some(g), fuel - 1)
  }

  /** The id reached after `k` steps up the parent chain from `groupID` (None once the root has
      been passed or a lookup failed). */
  function AncestorAt(groups: seq<Group>, groupID: string, k: nat): Option<string>
    decreases k
  {
    if k == 0 then Some(groupID)
    else if groupID == RootGroupID then None
    else
      match FindGroup(groups, groupID)
      case None => None
      case Some(g) => AncestorAt(groups, g.parentID, k - 1)
  }

  /** Every id of `visited` is looked up successfully and its parent is visited or `current`. */
  ghost predicate ChainSoFar(groups: seq<Group>, visited: set<string>, current: string)
  {
    forall x {:trigger FindGroup(groups, x)} :: x in visited ==>
      x != RootGroupID && FindGroup(groups, x).Some? && FindGroup(groups, x).value.parentID in visited + {current}
  }

  /** A set of ids none of which is the root, all of which name a group, and which holds the
      parent of each: a walk that enters it never leaves it. */
  ghost predicate Trapped(groups: seq<Group>, trap: set<string>)
  {
    forall x {:trigger FindGroup(groups, x)} :: x in trap ==>
      x != RootGroupID && FindGroup(groups, x).Some? && FindGroup(groups, x).value.parentID in trap
  }

  /** A walk that does not diverge gives what the source's recursion gives, given enough calls. */
  lemma {:induction false} WalkAgreesWithRecursion(groups: seq<Group>, groupID: string, previous: Option<Group>, visited: set<string>)
    returns (fuel: nat)
    requires !Walk(groups, groupID, previous, visited).Diverges?
    ensures WalkWithin(groups, groupID, previous, fuel) == Some(Walk(groups, groupID, previous, visited))
    decreases GroupIds(groups) - visited
  {
    if groupID == RootGroupID {
      fuel := 0;
    } else {
      match FindGroup(groups, groupID)
      case None =>
        fuel := 0;
      case Some(g) =>
        assert groupID in GroupIds(groups);
        var f := WalkAgreesWithRecursion(groups, g.parentID, Some(g), visited + {groupID});
        fuel := f + 1;
    }
  }

  /** A diverging walk has entered a trapped set. */
  lemma {:induction false} DivergingWalkIsTrapped(groups: seq<Group>, groupID: string, previous: Option<Group>, visited: set<string>)
    returns (trap: set<string>)
    requires ChainSoFar(groups, visited, groupID)
    requires Walk(groups, groupID, previous, visited).Diverges?
    ensures groupID in trap && visited <= trap && Trapped(groups, trap)
    decreases GroupIds(groups) - visited
  {
    if groupID in visited {
      trap := visited;
      forall x | x in trap
        ensures x != RootGroupID && FindGroup(groups, x).Some? && FindGroup(groups, x).value.parentID in trap
      {
        assert FindGroup(groups, x).Some?;
      }
    } else {
      var g := FindGroup(groups, groupID).value;
      assert groupID in GroupIds(groups);
      forall x | x in visited + {groupID}
        ensures x != RootGroupID && FindGroup(groups, x).Some?
        ensures FindGroup(groups, x).value.parentID in visited + {groupID} + {g.parentID}
      {
        if x != groupID {
          assert FindGroup(groups, x).Some?;
        }
      }
      trap := DivergingWalkIsTrapped(groups, g.parentID, Some(g), visited + {groupID});
    }
  }

  /** From inside a trapped set the source's recursion never returns nor throws. */
  lemma {:induction false} TrappedWalkNeverEnds(groups: seq<Group>, trap: set<string>, groupID: string, previous: Option<Group>, fuel: nat)
    requires Trapped(groups, trap) && groupID in trap
    ensures WalkWithin(groups, groupID, previous, fuel).None?
    decreases fuel
  {
    var found := FindGroup(groups, groupID);
    assert groupID != RootGroupID && found.Some?;
    var g := found.value;
    assert g.parentID in trap;
    if fuel > 0 {
      TrappedWalkNeverEnds(groups, trap, g.parentID, Some(g), fuel - 1);
    }
  }

  /** Once the literal recursion has ended within `fuel` calls, allowing more calls changes nothing. */
  lemma {:induction false} WalkWithinMonotone(groups: seq<Group>, groupID: string, previous: Option<Group>, fuel: nat, more: nat)
    requires fuel <= more && WalkWithin(groups, groupID, previous, fuel).Some?
    ensures WalkWithin(groups, groupID, previous, more) == WalkWithin(groups, groupID, previous, fuel)
    decreases fuel
  {
    if groupID != RootGroupID {
      match FindGroup(groups, groupID)
      case None =>
      case Some(g) =>
        WalkWithinMonotone(groups, g.parentID, Some(g), fuel - 1, more - 1);
    }
  }

  /** The top-most-group walk is exactly the source's recursion: it diverges iff the recursion
      never returns nor throws however deep it goes, and otherwise it gives the same outcome. */
  lemma TopMostMatchesRecursion(groups: seq<Group>, groupID: string)
    ensures TopMostFacadeGroup(groups, groupID).Diverges? <==>
              forall fuel: nat :: WalkWithin(groups, groupID, None, fuel).None?
    ensures !TopMostFacadeGroup(groups, groupID).Diverges? ==>
              exists fuel: nat :: WalkWithin(groups, groupID, None, fuel) == Some(TopMostFacadeGroup(groups, groupID))
    ensures forall fuel: nat :: WalkWithin(groups, groupID, None, fuel).Some? ==>
              WalkWithin(groups, groupID, None, fuel) == Some(TopMostFacadeGroup(groups, groupID))
  {
    if TopMostFacadeGroup(groups, groupID).Diverges? {
      var trap := DivergingWalkIsTrapped(groups, groupID, None, {});
      forall fuel: nat ensures WalkWithin(groups, groupID, None, fuel).None? {
        TrappedWalkNeverEnds(groups, trap, groupID, None, fuel);
      }
    } else {
      var enough := WalkAgreesWithRecursion(groups, groupID, None, {});
      assert WalkWithin(groups, groupID, None, enough).Some?;
      forall fuel: nat | WalkWithin(groups, groupID, None, fuel).Some?
        ensures WalkWithin(groups, groupID, None, fuel) == Some(TopMostFacadeGroup(groups, groupID))
      {
        if fuel <= enough {
          WalkWithinMonotone(groups, groupID, None, fuel, enough);
        } else {
          WalkWithinMonotone(groups, groupID, None, enough, fuel);
        }
      }
    }
  }

  /** When the walk starts below the root and returns, it returns a group on the parent chain
      of `groupID`: the last one before the root. */
  lemma {:induction false} RecursionEndsBelowRoot(groups: seq<Group>, groupID: string, previous: Option<Group>, fuel: nat, top: Group)
    returns (depth: nat)
    requires groupID != RootGroupID
    requires WalkWithin(groups, groupID, previous, fuel) == Some(Returns(Some(top)))
    ensures AncestorAt(groups, groupID, depth) == Some(top.id)
    ensures AncestorAt(groups, groupID, depth + 1) == Some(RootGroupID)
    ensures FindGroup(groups, top.id) == Some(top)
    decreases fuel
  {
    var found := FindGroup(groups, groupID);
    var g := found.value;
    assert AncestorAt(groups, groupID, 1) == AncestorAt(groups, g.parentID, 0);
    if g.parentID == RootGroupID {
      depth := 0;
    } else {
      var d := RecursionEndsBelowRoot(groups, g.parentID, Some(g), fuel - 1, top);
      assert AncestorAt(groups, groupID, d + 1) == AncestorAt(groups, g.parentID, d);
      assert AncestorAt(groups, groupID, d + 2) == AncestorAt(groups, g.parentID, d + 1);
      depth := d + 1;
    }
  }

  /** The group `getTopMostFacadeGroup` returns lies on the parent chain of `groupID` (it is the
      group `groupID` itself when that group's parent is the root) and is the first group of the
      list with its id. */
  lemma TopMostOnChain(groups: seq<Group>, groupID: string) returns (depth: nat)
    requires TopMostFacadeGroup(groups, groupID).Returns? && groupID != RootGroupID
    ensures TopMostFacadeGroup(groups, groupID).top.Some?
    ensures AncestorAt(groups, groupID, depth) == Some(TopMostFacadeGroup(groups, groupID).top.value.id)
    ensures AncestorAt(groups, groupID, depth + 1) == Some(RootGroupID)
    ensures FindGroup(groups, TopMostFacadeGroup(groups, groupID).top.value.id) == TopMostFacadeGroup(groups, groupID).top
  {
    var fuel := WalkAgreesWithRecursion(groups, groupID, None, {});
    depth := RecursionEndsBelowRoot(groups, groupID, None, fuel, TopMostFacadeGroup(groups, groupID).top.value);
  }

  // ---------------------------------------------------------------------------
  // Matching OTP fields
  // ---------------------------------------------------------------------------

  /** `/^BC_ENTRY_FIELD_TYPE:/.test(s)`. */
  predicate HasOtpPrefix(s: string)
  {
    OtpPrefix <= s
  }

  /** `s.replace(/^BC_ENTRY_FIELD_TYPE:/, "")`: removes the anchored prefix once, if present. */
  function StripOtpPrefix(s: string): (r: string)
    ensures HasOtpPrefix(s) ==> OtpPrefix + r == s
    ensures !HasOtpPrefix(s) ==> r == s
  {
    if HasOtpPrefix(s) then s[|OtpPrefix|..] else s
  }

  /** Stripping undoes prefixing, for every property name (even one that itself starts with the prefix). */
  lemma StripOtpPrefixRoundTrip(name: string)
    ensures HasOtpPrefix(OtpPrefix + name)
    ensures StripOtpPrefix(OtpPrefix + name) == name
  {
    assert (OtpPrefix + name)[..|OtpPrefix|] == OtpPrefix;
    assert (OtpPrefix + name)[|OtpPrefix|..] == name;
  }

  /** An attribute field saying that some property of the entry holds an OTP URI. */
  predicate IsOtpDescriptor(f: EntryField)
  {
    f.propertyType == Attribute && HasOtpPrefix(f.property) && f.value == OtpType
  }

  /** `fields.filter(...)`: the OTP descriptors of an entry, in field order. */
  function OtpDescriptors(fields: seq<EntryField>): (r: seq<EntryField>)
    ensures |r| <= |fields|
  {
    Filter(fields, IsOtpDescriptor)
  }

  /** The descriptors kept are exactly the entry's OTP descriptors. */
  lemma OtpDescriptorsSpec(fields: seq<EntryField>, d: EntryField)
    ensures d in OtpDescriptors(fields) <==> d in fields && IsOtpDescriptor(d)
  {
    FilterSpec(fields, IsOtpDescriptor);
  }

  predicate IsPropertyNamed(f: EntryField, name: string)
  {
    f.propertyType == Property && f.property == name
  }

  ghost predicate HasProperty(fields: seq<EntryField>, name: string)
  {
    exists i :: 0 <= i < |fields| && IsPropertyNamed(fields[i], name)
  }

  /** `fields[i]` is the first property field called `name`. */
  ghost predicate FirstPropertyAt(fields: seq<EntryField>, name: string, i: int)
  {
    0 <= i < |fields| && IsPropertyNamed(fields[i], name) &&
    forall j :: 0 <= j < i ==> !IsPropertyNamed(fields[j], name)
  }

  /** `fields.find(f => f.propertyType === "property" && f.property === name)`. */
  function FindProperty(fields: seq<EntryField>, name: string): (r: Option<EntryField>)
    ensures r.Some? ==> r.value in fields && IsPropertyNamed(r.value, name)
  {
    Find(fields, (f: EntryField) => IsPropertyNamed(f, name))
  }

  /** The field found is the first property field called `name`; none is found exactly when
      there is no such field. */
  lemma FindPropertySpec(fields: seq<EntryField>, name: string)
    ensures FindProperty(fields, name).None? <==> !HasProperty(fields, name)
    ensures FindProperty(fields, name).Some? ==>
              exists i :: FirstPropertyAt(fields, name, i) && fields[i] == FindProperty(fields, name).value
  {
    FindSpec(fields, (f: EntryField) => IsPropertyNamed(f, name));
    if HasProperty(fields, name) {
      var i :| 0 <= i < |fields| && IsPropertyNamed(fields[i], name);
      assert fields[i] in fields;
    }
  }

  /** `targetField.title || targetField.property`: an unset or empty title falls back to the property name. */
  function DisplayTitle(f: EntryField): (r: string)
    ensures f.title.Some? && f.title.value != "" ==> r == f.title.value
    ensures f.title.None? || f.title.value == "" ==> r == f.property
    ensures r == "" ==> f.property == ""
  {
    if f.title.Some? && f.title.value != "" then f.title.value else f.property
  }

  datatype OtpItem = OtpItem(entryID: string, entryTitle: string, title: string, otpURL: string)

  /** What one descriptor of `entry` contributes (the body of the inner reduce): an item when
      the property it names and a `title` property both exist. */
  function OtpItemFor(entry: Entry, descriptor: EntryField): (r: Option<OtpItem>)
    ensures r.Some? ==> r.value.entryID == entry.id
  {
    var targetField := FindProperty(entry.fields, StripOtpPrefix(descriptor.property));
    var titleField := FindProperty(entry.fields, TitleProperty);
    if targetField.Some? && titleField.Some? then
      Some(OtpItem(entry.id, titleField.value.value, DisplayTitle(targetField.value), targetField.value.value))
    else
      None
  }

  /** A descriptor yields an item exactly when the property it names (its property without the
      prefix) and a `title` property both exist; the item takes its OTP URI and display title
      from the first property field with that name, and its entry title from the first `title`. */
  lemma OtpItemForSpec(entry: Entry, descriptor: EntryField)
    ensures OtpItemFor(entry, descriptor).Some? <==>
              HasProperty(entry.fields, StripOtpPrefix(descriptor.property)) && HasProperty(entry.fields, TitleProperty)
    ensures OtpItemFor(entry, descriptor).Some? ==>
              exists i :: FirstPropertyAt(entry.fields, StripOtpPrefix(descriptor.property), i) &&
                OtpItemFor(entry, descriptor).value.otpURL == entry.fields[i].value &&
                OtpItemFor(entry, descriptor).value.title == DisplayTitle(entry.fields[i])
    ensures OtpItemFor(entry, descriptor).Some? ==>
              exists j :: FirstPropertyAt(entry.fields, TitleProperty, j) &&
                OtpItemFor(entry, descriptor).value.entryTitle == entry.fields[j].value
  {
    FindPropertySpec(entry.fields, StripOtpPrefix(descriptor.property));
    FindPropertySpec(entry.fields, TitleProperty);
  }

  /** The reduce over the descriptors `descs` of `entry`: their items, in descriptor order. */
  function ItemsFor(entry: Entry, descs: seq<EntryField>): (r: seq<OtpItem>)
    ensures |r| <= |descs|
    decreases |descs|
  {
    if descs == [] then []
    else
      var output := ItemsFor(entry, descs[..|descs| - 1]);
      match OtpItemFor(entry, descs[|descs| - 1])
      case None => output
      case Some(item) => output + [item]
  }

  lemma ItemsForStep(entry: Entry, descs: seq<EntryField>, j: nat, item: Option<OtpItem>)
    requires j < |descs| && item == OtpItemFor(entry, descs[j])
    ensures item.None? ==> ItemsFor(entry, descs[..j + 1]) == ItemsFor(entry, descs[..j])
    ensures item.Some? ==> ItemsFor(entry, descs[..j + 1]) == ItemsFor(entry, descs[..j]) + [item.value]
  {
    assert descs[..j + 1][..j] == descs[..j];
  }

  /** Every item of the reduce comes from one of the descriptors it went over. */
  lemma {:induction false} ItemsForSound(entry: Entry, descs: seq<EntryField>, x: OtpItem)
    requires x in ItemsFor(entry, descs)
    ensures exists d :: d in descs && OtpItemFor(entry, d) == Some(x)
    decreases |descs|
  {
    var last := descs[|descs| - 1];
    if OtpItemFor(entry, last) == Some(x) {
      assert last in descs;
    } else {
      var init := descs[..|descs| - 1];
      ItemsForSound(entry, init, x);
      var d :| d in init && OtpItemFor(entry, d) == Some(x);
      assert d in descs;
    }
  }

  /** Every descriptor that resolves to an item has that item collected. */
  lemma {:induction false} ResolvedDescriptorIsCollected(entry: Entry, descs: seq<EntryField>, j: nat)
    requires j < |descs| && OtpItemFor(entry, descs[j]).Some?
    ensures OtpItemFor(entry, descs[j]).value in ItemsFor(entry, descs)
    decreases |descs|
  {
    var init := descs[..|descs| - 1];
    if j < |descs| - 1 {
      assert init[j] == descs[j];
      ResolvedDescriptorIsCollected(entry, init, j);
    }
  }

  /** The OTP items of one entry (trash aside): at most one per OTP descriptor. */
  function EntryOtpItems(entry: Entry): (r: seq<OtpItem>)
    ensures |r| <= |OtpDescriptors(entry.fields)|
  {
    ItemsFor(entry, OtpDescriptors(entry.fields))
  }

  /** Every item of an entry comes from one of its OTP descriptors; what the item holds is then
      given by `OtpItemFor`: the first property named by the descriptor, and the first title. */
  lemma EntryItemSound(entry: Entry, x: OtpItem)
    requires x in EntryOtpItems(entry)
    ensures exists d :: d in entry.fields && IsOtpDescriptor(d) && OtpItemFor(entry, d) == Some(x)
  {
    ItemsForSound(entry, OtpDescriptors(entry.fields), x);
    FilterSpec(entry.fields, IsOtpDescriptor);
  }

  /** Where an emitted item comes from: an attribute field of the entry whose property carries
      the OTP prefix and whose value is the OTP type, naming (once the prefix is removed) a
      property field of the entry, the first of that name, whose value is the item's URI; the
      entry has a `title` property, whose first value is the item's entry title. */
  lemma EmittedItemProvenance(entry: Entry, x: OtpItem)
    requires x in EntryOtpItems(entry)
    ensures x.entryID == entry.id
    ensures exists d, i :: d in entry.fields && d.propertyType == Attribute && HasOtpPrefix(d.property) &&
              d.value == OtpType && FirstPropertyAt(entry.fields, StripOtpPrefix(d.property), i) &&
              x.otpURL == entry.fields[i].value && x.title == DisplayTitle(entry.fields[i])
    ensures exists j :: FirstPropertyAt(entry.fields, TitleProperty, j) && x.entryTitle == entry.fields[j].value
  {
    EntryItemSound(entry, x);
    var d :| d in entry.fields && IsOtpDescriptor(d) && OtpItemFor(entry, d) == Some(x);
    OtpItemForSpec(entry, d);
    var i :| FirstPropertyAt(entry.fields, StripOtpPrefix(d.property), i) &&
               x.otpURL == entry.fields[i].value && x.title == DisplayTitle(entry.fields[i]);
  }

  /** Items of a longer descriptor list extend those of its prefix: descriptor order is item order. */
  lemma {:induction false} ItemsForAppend(entry: Entry, a: seq<EntryField>, b: seq<EntryField>)
    ensures ItemsFor(entry, a + b) == ItemsFor(entry, a) + ItemsFor(entry, b)
    decreases |b|
  {
    if b == [] {
      assert a + b == a;
    } else {
      var b' := b[..|b| - 1];
      assert (a + b)[..|a + b| - 1] == a + b';
      assert (a + b)[|a + b| - 1] == b[|b| - 1];
      ItemsForAppend(entry, a, b');
    }
  }

  /** Splitting an entry's fields splits its items: those of the descriptors among the first
      fields come first. */
  lemma EntryItemsFollowFieldOrder(entry: Entry, a: seq<EntryField>, b: seq<EntryField>)
    requires entry.fields == a + b
    ensures EntryOtpItems(entry) == ItemsFor(entry, OtpDescriptors(a)) + ItemsFor(entry, OtpDescriptors(b))
  {
    FilterAppend(a, b, IsOtpDescriptor);
    ItemsForAppend(entry, OtpDescriptors(a), OtpDescriptors(b));
  }

  /** An entry with no `title` property yields no OTP items at all. */
  lemma EntryWithoutTitleHasNoItems(entry: Entry)
    requires !HasProperty(entry.fields, TitleProperty)
    ensures EntryOtpItems(entry) == []
  {
    if EntryOtpItems(entry) != [] {
      EntryItemSound(entry, EntryOtpItems(entry)[0]);
      var d :| d in entry.fields && IsOtpDescriptor(d) && OtpItemFor(entry, d) == Some(EntryOtpItems(entry)[0]);
      OtpItemForSpec(entry, d);
    }
  }

  /** Each OTP descriptor whose target property and a title exist yields exactly one item. */
  lemma {:induction false} ResolvedDescriptorsYieldOneItemEach(entry: Entry, descs: seq<EntryField>)
    requires forall d :: d in descs ==> OtpItemFor(entry, d).Some?
    ensures |ItemsFor(entry, descs)| == |descs|
    decreases |descs|
  {
    if descs != [] {
      ResolvedDescriptorsYieldOneItemEach(entry, descs[..|descs| - 1]);
    }
  }

  // ---------------------------------------------------------------------------
  // Trash and per-archive collection
  // ---------------------------------------------------------------------------

  /** Why collecting the codes throws: a parent id that names no group, or a parent chain
      that is a cycle (the recursion then overflows the call stack). */
  datatype VaultError = MissingGroup(groupID: string) | ParentCycle(groupID: string)

  /** `parentGroup && parentGroup.attributes[Group.Attributes.Role] === "trash"`, the role key
      being `roleKey`: a null top-level group is never the trash. */
  predicate IsTrashGroup(parentGroup: Option<Group>, roleKey: string)
  {
    parentGroup.Some? && roleKey in parentGroup.value.attributes && parentGroup.value.attributes[roleKey] == TrashRole
  }

  /** The entry's top-level group is the trash. */
  predicate InTrash(groups: seq<Group>, roleKey: string, entry: Entry)
  {
    var w := TopMostFacadeGroup(groups, entry.parentID);
    w.Returns? && IsTrashGroup(w.top, roleKey)
  }

  /** What one entry adds to the archive's list: nothing when it is in the trash, its OTP
      items otherwise; the walk's failure when its parent chain is broken. */
  function EntryOutput(groups: seq<Group>, roleKey: string, entry: Entry): (r: Result<seq<OtpItem>, VaultError>)
    ensures r.Failure? <==> !TopMostFacadeGroup(groups, entry.parentID).Returns?
    ensures TopMostFacadeGroup(groups, entry.parentID).Throws? ==>
              r == Failure(MissingGroup(TopMostFacadeGroup(groups, entry.parentID).missingID))
    ensures r.Success? && InTrash(groups, roleKey, entry) ==> r.value == []
    ensures r.Success? && !InTrash(groups, roleKey, entry) ==> r.value == EntryOtpItems(entry)
  {
    match TopMostFacadeGroup(groups, entry.parentID)
    case Throws(id) => Failure(MissingGroup(id))
    case Diverges => Failure(ParentCycle(entry.parentID))
    case Returns(parentGroup) =>
      if IsTrashGroup(parentGroup, roleKey) then Success([]) else Success(EntryOtpItems(entry))
  }

  /** An entry directly under the root is never treated as trash. */
  lemma RootEntryIsNotTrash(groups: seq<Group>, roleKey: string, entry: Entry)
    requires entry.parentID == RootGroupID
    ensures !InTrash(groups, roleKey, entry)
    ensures EntryOutput(groups, roleKey, entry) == Success(EntryOtpItems(entry))
  {
  }

  /** Appends two partial outputs; the first failure wins, as the first exception thrown does. */
  function AppendOutputs<T>(first: Result<seq<T>, VaultError>, rest: Result<seq<T>, VaultError>): Result<seq<T>, VaultError>
  {
    match first
    case Failure(e) => Failure(e)
    case Success(a) =>
      match rest
      case Failure(e) => Failure(e)
      case Success(b) => Success(a + b)
  }

  lemma AppendOutputsAssociative<T>(x: Result<seq<T>, VaultError>, y: Result<seq<T>, VaultError>, z: Result<seq<T>, VaultError>)
    ensures AppendOutputs(AppendOutputs(x, y), z) == AppendOutputs(x, AppendOutputs(y, z))
  {
    if x.Success? && y.Success? && z.Success? {
      assert x.value + y.value + z.value == x.value + (y.value + z.value);
    }
  }

  lemma AppendOutputsUnit<T>(x: Result<seq<T>, VaultError>)
    ensures AppendOutputs(x, Success([])) == x
  {
    if x.Success? {
      assert x.value + [] == x.value;
    }
  }

  /** A failure after a success is kept whatever follows it. */
  lemma AppendOutputsFailure<T>(x: Result<seq<T>, VaultError>, error: VaultError, y: Result<seq<T>, VaultError>)
    requires x.Success?
    ensures AppendOutputs(AppendOutputs(x, Failure(error)), y) == Failure(error)
  {
  }

  /** A join succeeds only when all its parts do. */
  lemma AppendOutputsSuccess<T>(x: Result<seq<T>, VaultError>, middle: Result<seq<T>, VaultError>, y: Result<seq<T>, VaultError>)
    requires AppendOutputs(AppendOutputs(x, middle), y).Success?
    ensures x.Success? && middle.Success? && y.Success?
  {
  }

  /** An element of a successful middle output survives the joins around it. */
  lemma AppendOutputsKeeps<T>(x: Result<seq<T>, VaultError>, middle: seq<T>, y: Result<seq<T>, VaultError>, e: T)
    requires AppendOutputs(AppendOutputs(x, Success(middle)), y).Success? && e in middle
    ensures e in AppendOutputs(AppendOutputs(x, Success(middle)), y).value
  {
  }

  /** The reduce over the facade's entries: the OTP items of all entries outside the trash. */
  function ArchiveOtpItems(groups: seq<Group>, roleKey: string, entries: seq<Entry>): (r: Result<seq<OtpItem>, VaultError>)
    decreases |entries|
  {
    if entries == [] then Success([])
    else AppendOutputs(ArchiveOtpItems(groups, roleKey, entries[..|entries| - 1]),
                       EntryOutput(groups, roleKey, entries[|entries| - 1]))
  }

  /** Every collected item is an item of an entry of the archive that is not in the trash. */
  lemma {:induction false} ArchiveItemSound(groups: seq<Group>, roleKey: string, entries: seq<Entry>, x: OtpItem)
    requires ArchiveOtpItems(groups, roleKey, entries).Success?
    requires x in ArchiveOtpItems(groups, roleKey, entries).value
    ensures exists e :: e in entries && !InTrash(groups, roleKey, e) && x in EntryOtpItems(e)
    decreases |entries|
  {
    var init, last := entries[..|entries| - 1], entries[|entries| - 1];
    var output := EntryOutput(groups, roleKey, last).value;
    if x in output {
      assert last in entries;
    } else {
      ArchiveItemSound(groups, roleKey, init, x);
      var e :| e in init && !InTrash(groups, roleKey, e) && x in EntryOtpItems(e);
      assert e in entries;
    }
  }

  /** Collecting an archive's items succeeds when the parent walk of every entry returns. */
  lemma {:induction false} ArchiveSucceedsWhenWalksReturn(groups: seq<Group>, roleKey: string, entries: seq<Entry>)
    requires forall i :: 0 <= i < |entries| ==> TopMostFacadeGroup(groups, entries[i].parentID).Returns?
    ensures ArchiveOtpItems(groups, roleKey, entries).Success?
    decreases |entries|
  {
    if entries != [] {
      var init, last := entries[..|entries| - 1], entries[|entries| - 1];
      assert forall i :: 0 <= i < |init| ==> init[i] == entries[i];
      ArchiveSucceedsWhenWalksReturn(groups, roleKey, init);
      assert EntryOutput(groups, roleKey, last).Success?;
    }
  }

  /** When collecting an archive's items succeeds, the parent walk of every entry returned. */
  lemma ArchiveSuccessMeansWalkReturned(groups: seq<Group>, roleKey: string, entries: seq<Entry>, i: nat)
    requires i < |entries| && ArchiveOtpItems(groups, roleKey, entries).Success?
    ensures TopMostFacadeGroup(groups, entries[i].parentID).Returns?
  {
    ArchiveOtpItemsAround(groups, roleKey, entries, i);
    AppendOutputsSuccess(ArchiveOtpItems(groups, roleKey, entries[..i]), EntryOutput(groups, roleKey, entries[i]),
                         ArchiveOtpItems(groups, roleKey, entries[i + 1..]));
  }

  /** Every OTP item of an entry outside the trash is collected when the archive succeeds. */
  lemma EntryItemIsCollected(groups: seq<Group>, roleKey: string, entries: seq<Entry>, i: nat, x: OtpItem)
    requires i < |entries| && ArchiveOtpItems(groups, roleKey, entries).Success?
    requires !InTrash(groups, roleKey, entries[i]) && x in EntryOtpItems(entries[i])
    ensures x in ArchiveOtpItems(groups, roleKey, entries).value
  {
    ArchiveSuccessMeansWalkReturned(groups, roleKey, entries, i);
    EntryOutputIsCollected(groups, roleKey, entries, i, EntryOtpItems(entries[i]), x);
  }

  lemma EntryOutputIsCollected(groups: seq<Group>, roleKey: string, entries: seq<Entry>, i: nat, items: seq<OtpItem>, x: OtpItem)
    requires i < |entries| && ArchiveOtpItems(groups, roleKey, entries).Success?
    requires EntryOutput(groups, roleKey, entries[i]) == Success(items) && x in items
    ensures x in ArchiveOtpItems(groups, roleKey, entries).value
  {
    ArchiveOtpItemsAround(groups, roleKey, entries, i);
    AppendOutputsKeeps(ArchiveOtpItems(groups, roleKey, entries[..i]), items, ArchiveOtpItems(groups, roleKey, entries[i + 1..]), x);
  }

  /** The entries' outputs are concatenated in entry order, and the first failing entry decides
      the failure. */
  lemma {:induction false} ArchiveOtpItemsAppend(groups: seq<Group>, roleKey: string, a: seq<Entry>, b: seq<Entry>)
    ensures ArchiveOtpItems(groups, roleKey, a + b) ==
              AppendOutputs(ArchiveOtpItems(groups, roleKey, a), ArchiveOtpItems(groups, roleKey, b))
    decreases |b|
  {
    if b == [] {
      assert a + b == a;
      AppendOutputsUnit(ArchiveOtpItems(groups, roleKey, a));
    } else {
      var b' := b[..|b| - 1];
      assert (a + b)[..|a + b| - 1] == a + b';
      assert (a + b)[|a + b| - 1] == b[|b| - 1];
      ArchiveOtpItemsAppend(groups, roleKey, a, b');
      AppendOutputsAssociative(ArchiveOtpItems(groups, roleKey, a), ArchiveOtpItems(groups, roleKey, b'),
                               EntryOutput(groups, roleKey, b[|b| - 1]));
    }
  }

  /** Removing an entry that sits in the trash does not change the collected items. */
  lemma TrashedEntryContributesNothing(groups: seq<Group>, roleKey: string, before: seq<Entry>, entry: Entry, after: seq<Entry>)
    requires InTrash(groups, roleKey, entry)
    ensures ArchiveOtpItems(groups, roleKey, before + [entry] + after) == ArchiveOtpItems(groups, roleKey, before + after)
  {
    ArchiveOtpItemsAppend(groups, roleKey, before + [entry], after);
    ArchiveOtpItemsAppend(groups, roleKey, before, [entry]);
    ArchiveOtpItemsAppend(groups, roleKey, before, after);
    assert [entry][..0] == [];
    AppendOutputsUnit(ArchiveOtpItems(groups, roleKey, before));
    AppendOutputsAssociative(ArchiveOtpItems(groups, roleKey, before), ArchiveOtpItems(groups, roleKey, [entry]),
                             ArchiveOtpItems(groups, roleKey, after));
  }

  // ---------------------------------------------------------------------------
  // Per-source groups of codes
  // ---------------------------------------------------------------------------

  datatype OtpGroup = OtpGroup(entries: seq<OtpItem>, sourceTitle: string, sourceID: string, sourceOrder: int)

  /** What one source adds to the list: a group holding its items when it has any. */
  function SourceOutput(source: UnlockedSource, roleKey: string): (r: Result<seq<OtpGroup>, VaultError>)
    ensures r.Success? ==> |r.value| <= 1
  {
    match ArchiveOtpItems(source.archive.groups, roleKey, source.archive.entries)
    case Failure(e) => Failure(e)
    case Success(otpEntries) =>
      if |otpEntries| > 0 then Success([OtpGroup(otpEntries, source.name, source.id, source.order)])
      else Success([])
  }

  /** The forEach over the unlocked sources: one group per source that has at least one OTP
      item, carrying that source's name, id and order. */
  function VaultCodes(sources: seq<UnlockedSource>, roleKey: string): Result<seq<OtpGroup>, VaultError>
    decreases |sources|
  {
    if sources == [] then Success([])
    else AppendOutputs(VaultCodes(sources[..|sources| - 1], roleKey), SourceOutput(sources[|sources| - 1], roleKey))
  }

  /** At most one group per source, and no group without items. */
  lemma {:induction false} VaultCodesShape(sources: seq<UnlockedSource>, roleKey: string)
    requires VaultCodes(sources, roleKey).Success?
    ensures |VaultCodes(sources, roleKey).value| <= |sources|
    ensures forall g :: g in VaultCodes(sources, roleKey).value ==> g.entries != []
    decreases |sources|
  {
    if sources != [] {
      var init, last := sources[..|sources| - 1], sources[|sources| - 1];
      VaultCodesShape(init, roleKey);
      var a, b := VaultCodes(init, roleKey).value, SourceOutput(last, roleKey).value;
      assert VaultCodes(sources, roleKey).value == a + b;
      forall g: OtpGroup | g in a + b
        ensures g.entries != []
      {
        if g !in a {
          assert g == b[0];
        }
      }
    }
  }

  /** Every listed group is the non-empty item list of one of the sources, under that source's
      name, id and order. */
  lemma {:induction false} VaultGroupSound(sources: seq<UnlockedSource>, roleKey: string, g: OtpGroup)
    requires VaultCodes(sources, roleKey).Success? && g in VaultCodes(sources, roleKey).value
    ensures exists s :: s in sources && g.sourceTitle == s.name && g.sourceID == s.id && g.sourceOrder == s.order &&
              ArchiveOtpItems(s.archive.groups, roleKey, s.archive.entries) == Success(g.entries)
    decreases |sources|
  {
    var init, last := sources[..|sources| - 1], sources[|sources| - 1];
    if g in VaultCodes(init, roleKey).value {
      VaultGroupSound(init, roleKey, g);
      var s :| s in init && g.sourceTitle == s.name && g.sourceID == s.id && g.sourceOrder == s.order &&
                ArchiveOtpItems(s.archive.groups, roleKey, s.archive.entries) == Success(g.entries);
      assert s in sources;
    } else {
      assert last in sources;
    }
  }

  /** The groups of a longer source list extend those of its prefix: groups follow source order. */
  lemma {:induction false} VaultCodesAppend(a: seq<UnlockedSource>, b: seq<UnlockedSource>, roleKey: string)
    ensures VaultCodes(a + b, roleKey) == AppendOutputs(VaultCodes(a, roleKey), VaultCodes(b, roleKey))
    decreases |b|
  {
    if b == [] {
      assert a + b == a;
      AppendOutputsUnit(VaultCodes(a, roleKey));
    } else {
      var b' := b[..|b| - 1];
      assert (a + b)[..|a + b| - 1] == a + b';
      assert (a + b)[|a + b| - 1] == b[|b| - 1];
      VaultCodesAppend(a, b', roleKey);
      AppendOutputsAssociative(VaultCodes(a, roleKey), VaultCodes(b', roleKey), SourceOutput(b[|b| - 1], roleKey));
    }
  }

  /** The update succeeds when the archive of every source succeeds. */
  lemma {:induction false} VaultSucceedsWhenArchivesSucceed(sources: seq<UnlockedSource>, roleKey: string)
    requires forall k :: 0 <= k < |sources| ==>
               ArchiveOtpItems(sources[k].archive.groups, roleKey, sources[k].archive.entries).Success?
    ensures VaultCodes(sources, roleKey).Success?
    decreases |sources|
  {
    if sources != [] {
      var init, last := sources[..|sources| - 1], sources[|sources| - 1];
      assert forall k :: 0 <= k < |init| ==> init[k] == sources[k];
      VaultSucceedsWhenArchivesSucceed(init, roleKey);
      assert SourceOutput(last, roleKey).Success?;
    }
  }

  /** When the update succeeds, the archive of every source succeeded. */
  lemma VaultSuccessMeansArchiveSucceeded(sources: seq<UnlockedSource>, roleKey: string, k: nat)
    requires k < |sources| && VaultCodes(sources, roleKey).Success?
    ensures ArchiveOtpItems(sources[k].archive.groups, roleKey, sources[k].archive.entries).Success?
  {
    VaultCodesAround(sources, roleKey, k);
    AppendOutputsSuccess(VaultCodes(sources[..k], roleKey), SourceOutput(sources[k], roleKey),
                         VaultCodes(sources[k + 1..], roleKey));
  }

  /** Every source whose archive has OTP items is listed, with those items, its name, id and order. */
  lemma {:induction false} SourceWithItemsIsListed(sources: seq<UnlockedSource>, roleKey: string, i: nat)
    requires i < |sources| && VaultCodes(sources, roleKey).Success?
    requires ArchiveOtpItems(sources[i].archive.groups, roleKey, sources[i].archive.entries).Success?
    requires ArchiveOtpItems(sources[i].archive.groups, roleKey, sources[i].archive.entries).value != []
    ensures OtpGroup(ArchiveOtpItems(sources[i].archive.groups, roleKey, sources[i].archive.entries).value,
                     sources[i].name, sources[i].id, sources[i].order) in VaultCodes(sources, roleKey).value
  {
    var s := sources[i];
    var group := OtpGroup(ArchiveOtpItems(s.archive.groups, roleKey, s.archive.entries).value, s.name, s.id, s.order);
    assert SourceOutput(s, roleKey) == Success([group]);
    SourceOutputIsListed(sources, roleKey, i, group);
  }

  lemma SourceOutputIsListed(sources: seq<UnlockedSource>, roleKey: string, i: nat, group: OtpGroup)
    requires i < |sources| && VaultCodes(sources, roleKey).Success?
    requires SourceOutput(sources[i], roleKey) == Success([group])
    ensures group in VaultCodes(sources, roleKey).value
  {
    VaultCodesAround(sources, roleKey, i);
    AppendOutputsKeeps(VaultCodes(sources[..i], roleKey), [group], VaultCodes(sources[i + 1..], roleKey), group);
  }

  // ---------------------------------------------------------------------------
  // The update itself
  // ---------------------------------------------------------------------------

  lemma ArchiveOtpItemsStep(groups: seq<Group>, roleKey: string, entries: seq<Entry>, i: nat)
    requires i < |entries|
    ensures ArchiveOtpItems(groups, roleKey, entries[..i + 1]) ==
              AppendOutputs(ArchiveOtpItems(groups, roleKey, entries[..i]), EntryOutput(groups, roleKey, entries[i]))
  {
    assert entries[..i + 1][..i] == entries[..i];
  }

  lemma VaultCodesStep(sources: seq<UnlockedSource>, roleKey: string, k: nat)
    requires k < |sources|
    ensures VaultCodes(sources[..k + 1], roleKey) ==
              AppendOutputs(VaultCodes(sources[..k], roleKey), SourceOutput(sources[k], roleKey))
  {
    assert sources[..k + 1][..k] == sources[..k];
  }

  /** The reduce over all entries, seen around entry `i`: what comes before, the entry's own
      output, and what comes after. */
  lemma ArchiveOtpItemsAround(groups: seq<Group>, roleKey: string, entries: seq<Entry>, i: nat)
    requires i < |entries|
    ensures ArchiveOtpItems(groups, roleKey, entries) ==
              AppendOutputs(AppendOutputs(ArchiveOtpItems(groups, roleKey, entries[..i]), EntryOutput(groups, roleKey, entries[i])),
                            ArchiveOtpItems(groups, roleKey, entries[i + 1..]))
  {
    var done, rest := entries[..i + 1], entries[i + 1..];
    assert done + rest == entries;
    ArchiveOtpItemsAppend(groups, roleKey, done, rest);
    ArchiveOtpItemsStep(groups, roleKey, entries, i);
  }

  /** The `forEach` over all sources, seen around source `i`. */
  lemma VaultCodesAround(sources: seq<UnlockedSource>, roleKey: string, i: nat)
    requires i < |sources|
    ensures VaultCodes(sources, roleKey) ==
              AppendOutputs(AppendOutputs(VaultCodes(sources[..i], roleKey), SourceOutput(sources[i], roleKey)),
                            VaultCodes(sources[i + 1..], roleKey))
  {
    var done, rest := sources[..i + 1], sources[i + 1..];
    assert done + rest == sources;
    VaultCodesAppend(done, rest, roleKey);
    VaultCodesStep(sources, roleKey, i);
  }

  /** An entry that fails makes the whole archive fail with its error, whatever follows it. */
  lemma ArchiveFailureAt(groups: seq<Group>, roleKey: string, entries: seq<Entry>, i: nat, error: VaultError)
    requires i < |entries|
    requires ArchiveOtpItems(groups, roleKey, entries[..i]).Success?
    requires EntryOutput(groups, roleKey, entries[i]) == Failure(error)
    ensures ArchiveOtpItems(groups, roleKey, entries) == Failure(error)
  {
    ArchiveOtpItemsAround(groups, roleKey, entries, i);
    AppendOutputsFailure(ArchiveOtpItems(groups, roleKey, entries[..i]), error, ArchiveOtpItems(groups, roleKey, entries[i + 1..]));
  }

  /** A source whose archive fails makes the whole update fail with that error. */
  lemma VaultFailureAt(sources: seq<UnlockedSource>, roleKey: string, k: nat, error: VaultError)
    requires k < |sources|
    requires VaultCodes(sources[..k], roleKey).Success?
    requires ArchiveOtpItems(sources[k].archive.groups, roleKey, sources[k].archive.entries) == Failure(error)
    ensures VaultCodes(sources, roleKey) == Failure(error)
  {
    assert SourceOutput(sources[k], roleKey) == Failure(error);
    SourceFailureAt(sources, roleKey, k, error);
  }

  lemma SourceFailureAt(sources: seq<UnlockedSource>, roleKey: string, k: nat, error: VaultError)
    requires k < |sources|
    requires VaultCodes(sources[..k], roleKey).Success?
    requires SourceOutput(sources[k], roleKey) == Failure(error)
    ensures VaultCodes(sources, roleKey) == Failure(error)
  {
    VaultCodesAround(sources, roleKey, k);
    AppendOutputsFailure(VaultCodes(sources[..k], roleKey), error, VaultCodes(sources[k + 1..], roleKey));
  }

  /** The reduce over an entry's OTP descriptors, pushing one item per descriptor whose
      target property and title are found. */
  method CollectEntryOtpItems(entry: Entry) returns (allOtpItems: seq<OtpItem>)
    ensures allOtpItems == EntryOtpItems(entry)
  {
    var otpFieldDescriptors := OtpDescriptors(entry.fields);
    allOtpItems := ReduceDescriptors(entry, otpFieldDescriptors);
  }

  /** The reduce itself, over given descriptors: pushes one item per descriptor whose target
      property and title are found, in descriptor order. */
  method ReduceDescriptors(entry: Entry, otpFieldDescriptors: seq<EntryField>) returns (allOtpItems: seq<OtpItem>)
    ensures allOtpItems == ItemsFor(entry, otpFieldDescriptors)
  {
    allOtpItems := [];
    var j := 0;
    while j < |otpFieldDescriptors|
      invariant j <= |otpFieldDescriptors|
      invariant allOtpItems == ItemsFor(entry, otpFieldDescriptors[..j])
    {
      var nextDesc := otpFieldDescriptors[j];
      // the callback's two lookups and its test are those of OtpItemFor
      var item := OtpItemFor(entry, nextDesc);
      ItemsForStep(entry, otpFieldDescriptors, j, item);
      if item.Some? {
        allOtpItems := allOtpItems + [item.value];
      }
      j := j + 1;
    }
    assert otpFieldDescriptors[..j] == otpFieldDescriptors;
  }

  /** The reduce over a facade's entries: skips entries whose top-level group is the trash and
      appends the OTP items of the others; a broken parent chain aborts it. */
  method CollectArchiveOtpItems(archiveFacade: ArchiveFacade, roleKey: string)
    returns (otpEntries: Result<seq<OtpItem>, VaultError>)
    ensures otpEntries == ArchiveOtpItems(archiveFacade.groups, roleKey, archiveFacade.entries)
  {
    var output: seq<OtpItem> := [];
    var i := 0;
    while i < |archiveFacade.entries|
      invariant i <= |archiveFacade.entries|
      invariant ArchiveOtpItems(archiveFacade.groups, roleKey, archiveFacade.entries[..i]) == Success(output)
    {
      var entry := archiveFacade.entries[i];
      var walk := TopMostFacadeGroup(archiveFacade.groups, entry.parentID);
      if !walk.Returns? {
        var error := if walk.Throws? then MissingGroup(walk.missingID) else ParentCycle(entry.parentID);
        ArchiveFailureAt(archiveFacade.groups, roleKey, archiveFacade.entries, i, error);
        return Failure(error);
      }
      var parentGroup := walk.top;
      var isTrashGroup := IsTrashGroup(parentGroup, roleKey);
      ghost var entryOutput := if isTrashGroup then [] else EntryOtpItems(entry);
      assert EntryOutput(archiveFacade.groups, roleKey, entry) == Success(entryOutput);
      ArchiveOtpItemsStep(archiveFacade.groups, roleKey, archiveFacade.entries, i);
      if !isTrashGroup {
        var otpItems := CollectEntryOtpItems(entry);
        output := output + otpItems;
      } else {
        assert output + entryOutput == output;
      }
      i := i + 1;
    }
    assert archiveFacade.entries[..i] == archiveFacade.entries;
    otpEntries := Success(output);
  }

  /** `updateAllVaultCodes`: for each unlocked source in turn, collects the OTP items of its
      archive and keeps a group for each source that has any. The list it would dispatch is
      returned; a broken parent chain aborts the whole update. */
  method UpdateAllVaultCodes(unlockedSources: seq<UnlockedSource>, roleKey: string)
    returns (otpCodes: Result<seq<OtpGroup>, VaultError>)
    ensures otpCodes == VaultCodes(unlockedSources, roleKey)
  {
    var otpGroups: seq<OtpGroup> := [];
    var k := 0;
    while k < |unlockedSources|
      invariant k <= |unlockedSources|
      invariant VaultCodes(unlockedSources[..k], roleKey) == Success(otpGroups)
    {
      var source := unlockedSources[k];
      var otpEntries := CollectArchiveOtpItems(source.archive, roleKey);
      if otpEntries.Failure? {
        VaultFailureAt(unlockedSources, roleKey, k, otpEntries.error);
        return Failure(otpEntries.error);
      }
      ghost var sourceOutput := if |otpEntries.value| > 0 then [OtpGroup(otpEntries.value, source.name, source.id, source.order)] else [];
      assert SourceOutput(source, roleKey) == Success(sourceOutput);
      VaultCodesStep(unlockedSources, roleKey, k);
      if |otpEntries.value| > 0 {
        otpGroups := otpGroups + [OtpGroup(otpEntries.value, source.name, source.id, source.order)];
      } else {
        assert otpGroups + sourceOutput == otpGroups;
      }
      k := k + 1;
    }
    assert unlockedSources[..k] == unlockedSources;
    otpCodes := Success(otpGroups);
  }
}

/** Partners: their validation state, the head-office contact details kept
    under a reserved label, the cities of their locations and the drafts
    they are created as. */
module Partners {
  import opened Php
  import opened ContactDetails
  import opened PostalAddresses

  /** `Partner::HEAD_OFFICE_LABEL`. */
  const HeadOfficeLabel := "Siège social"

  /** The type tag Eloquent stores for a contact detail owned by a partner. */
  const PartnerClass := "App\\Partner"

  /** The mass-assignable columns of a partner. */
  const Fillable: set<string> := {"name", "name_sort", "business_type", "is_draft"}

  datatype TeamMember = TeamMember(id: int)

  // ---------------------------------------------------------------------
  // Head-office phones and e-mail addresses

  /** The first entry carrying `tag`, as `findPhoneByLabel` and
      `$emails->first(...)` look it up. */
  function FindByLabel(ds: seq<ContactEntry>, tag: string): (r: Option<nat>)
    ensures r.Some? ==> (r.value) < |ds| && ds[r.value].envelope.labelText == tag
    ensures r.Some? ==> forall j :: 0 <= j < (r.value) ==> ds[j].envelope.labelText != tag
    ensures r.None? <==> forall j :: 0 <= j < |ds| ==> ds[j].envelope.labelText != tag
  {
    if ds == [] then None
    else if ds[0].envelope.labelText == tag then Some(0)
    else match FindByLabel(ds[1..], tag)
      case None => None
      case Some(i) => Some(i + 1)
  }

  /** How many entries carry `tag`. */
  function CountLabel(ds: seq<ContactEntry>, tag: string): nat {
    if ds == [] then 0
    else (if ds[0].envelope.labelText == tag then 1 else 0) + CountLabel(ds[1..], tag)
  }

  /** `setHeadOfficePhone` / `setHeadOfficeEmail` on the list of entries: the
      head-office entry gets the new value and visibility, or a new private-
      or-public entry labelled for the head office is appended. */
  function UpsertHeadOffice(ds: seq<ContactEntry>, value: string, isPublic: bool): seq<ContactEntry> {
    match FindByLabel(ds, HeadOfficeLabel)
    case Some(i) => ds[i := ContactEntry(value, ds[i].envelope.(isPublic := isPublic))]
    case None => ds + [ContactEntry(value, NewEnvelope.(labelText := HeadOfficeLabel, isPublic := isPublic))]
  }

  /** `removeHeadOfficePhone` / `removeHeadOfficeEmail`: deletes the
      head-office entry, if any. */
  function RemoveHeadOffice(ds: seq<ContactEntry>): seq<ContactEntry> {
    match FindByLabel(ds, HeadOfficeLabel)
    case Some(i) => ds[..i] + ds[i + 1..]
    case None => ds
  }

  /** An existing head-office entry is overwritten in place: same length,
      same tag, the other entries untouched. */
  lemma UpsertExisting(ds: seq<ContactEntry>, value: string, isPublic: bool)
    requires FindByLabel(ds, HeadOfficeLabel).Some?
    ensures var i := FindByLabel(ds, HeadOfficeLabel).value;
      var r := UpsertHeadOffice(ds, value, isPublic);
      |r| == |ds| &&
      r[i].value == value && r[i].envelope.isPublic == isPublic &&
      r[i].envelope.labelText == HeadOfficeLabel && r[i].envelope.attributes == ds[i].envelope.attributes &&
      forall j :: 0 <= j < |ds| && j != i ==> r[j] == ds[j]
  {
  }

  /** Without a head-office entry exactly one is appended. */
  lemma UpsertAbsent(ds: seq<ContactEntry>, value: string, isPublic: bool)
    requires FindByLabel(ds, HeadOfficeLabel).None?
    ensures var r := UpsertHeadOffice(ds, value, isPublic);
      |r| == |ds| + 1 && r[..|ds|] == ds &&
      r[|ds|] == ContactEntry(value, Envelope(HeadOfficeLabel, isPublic, map[]))
  {
    var r := UpsertHeadOffice(ds, value, isPublic);
    assert r == ds + [ContactEntry(value, Envelope(HeadOfficeLabel, isPublic, map[]))];
  }

  /** After an upsert the head office is found, holding the new value and
      visibility. */
  lemma UpsertThenFind(ds: seq<ContactEntry>, value: string, isPublic: bool)
    ensures var r := UpsertHeadOffice(ds, value, isPublic);
      var f := FindByLabel(r, HeadOfficeLabel);
      f.Some? && r[f.value].value == value && r[f.value].envelope.isPublic == isPublic
  {
    var r := UpsertHeadOffice(ds, value, isPublic);
    match FindByLabel(ds, HeadOfficeLabel)
    case Some(i) =>
      UpsertExisting(ds, value, isPublic);
      assert forall j :: 0 <= j < i ==> r[j] == ds[j];
    case None =>
      UpsertAbsent(ds, value, isPublic);
      assert forall j :: 0 <= j < |ds| ==> r[j] == ds[j];
  }

  lemma {:induction false} CountLabelAppend(ds: seq<ContactEntry>, e: ContactEntry, tag: string)
    ensures CountLabel(ds + [e], tag) == CountLabel(ds, tag) + (if e.envelope.labelText == tag then 1 else 0)
  {
    if ds != [] {
      CountLabelAppend(ds[1..], e, tag);
      assert (ds + [e])[1..] == ds[1..] + [e];
    }
  }

  lemma {:induction false} CountLabelSplit(ds: seq<ContactEntry>, i: nat, tag: string)
    requires i < |ds|
    ensures CountLabel(ds, tag) ==
      CountLabel(ds[..i], tag) + (if ds[i].envelope.labelText == tag then 1 else 0) + CountLabel(ds[i + 1..], tag)
  {
    if i == 0 {
      assert ds[..0] == [];
    } else {
      CountLabelSplit(ds[1..], i - 1, tag);
      assert ds[1..][..i - 1] == ds[..i][1..];
      assert ds[1..][i - 1] == ds[i];
      assert ds[1..][i..] == ds[i + 1..];
    }
  }

  /** A list with at most one head-office entry keeps exactly one after an
      upsert. */
  lemma UpsertKeepsOneHeadOffice(ds: seq<ContactEntry>, value: string, isPublic: bool)
    requires CountLabel(ds, HeadOfficeLabel) <= 1
    ensures CountLabel(UpsertHeadOffice(ds, value, isPublic), HeadOfficeLabel) == 1
  {
    var r := UpsertHeadOffice(ds, value, isPublic);
    match FindByLabel(ds, HeadOfficeLabel)
    case Some(i) =>
      CountLabelSplit(ds, i, HeadOfficeLabel);
      CountLabelSplit(r, i, HeadOfficeLabel);
      assert r[..i] == ds[..i] && r[i + 1..] == ds[i + 1..];
    case None =>
      CountLabelNone(ds, HeadOfficeLabel);
      CountLabelAppend(ds, r[|ds|], HeadOfficeLabel);
      assert r == ds + [r[|ds|]];
  }

  lemma {:induction false} CountLabelNone(ds: seq<ContactEntry>, tag: string)
    requires forall j :: 0 <= j < |ds| ==> ds[j].envelope.labelText != tag
    ensures CountLabel(ds, tag) == 0
  {
    if ds != [] {
      CountLabelNone(ds[1..], tag);
    }
  }

  /** Removal drops the first head-office entry and keeps the others in
      order; it changes nothing when there is none. */
  lemma RemoveDropsHeadOffice(ds: seq<ContactEntry>)
    ensures FindByLabel(ds, HeadOfficeLabel).None? ==> RemoveHeadOffice(ds) == ds
    ensures FindByLabel(ds, HeadOfficeLabel).Some? ==>
      var i := FindByLabel(ds, HeadOfficeLabel).value;
      var r := RemoveHeadOffice(ds);
      |r| == |ds| - 1 &&
      CountLabel(r, HeadOfficeLabel) == CountLabel(ds, HeadOfficeLabel) - 1 &&
      (forall j :: 0 <= j < i ==> r[j] == ds[j]) &&
      (forall j :: i <= j < |ds| - 1 ==> r[j] == ds[j + 1])
  {
    var f := FindByLabel(ds, HeadOfficeLabel);
    if f.Some? {
      var i := f.value;
      DropAt(ds, i);
      CountDropAt(ds, i, HeadOfficeLabel);
    }
  }

  /** Dropping entry `i` shifts the later entries down by one. */
  lemma DropAt(ds: seq<ContactEntry>, i: nat)
    requires i < |ds|
    ensures var r := ds[..i] + ds[i + 1..];
      |r| == |ds| - 1 &&
      (forall j :: 0 <= j < i ==> r[j] == ds[j]) &&
      (forall j :: i <= j < |ds| - 1 ==> r[j] == ds[j + 1])
  {
  }

  /** Dropping an entry with the tag lowers the count of the tag by one. */
  lemma CountDropAt(ds: seq<ContactEntry>, i: nat, tag: string)
    requires i < |ds| && ds[i].envelope.labelText == tag
    ensures CountLabel(ds[..i] + ds[i + 1..], tag) == CountLabel(ds, tag) - 1
  {
    CountLabelSplit(ds, i, tag);
    CountLabelConcat(ds[..i], ds[i + 1..], tag);
  }

  lemma {:induction false} CountLabelConcat(a: seq<ContactEntry>, b: seq<ContactEntry>, tag: string)
    ensures CountLabel(a + b, tag) == CountLabel(a, tag) + CountLabel(b, tag)
  {
    if a == [] {
      assert a + b == b;
    } else {
      CountLabelConcat(a[1..], b, tag);
      assert (a + b)[1..] == a[1..] + b;
    }
  }

  /** With at most one head-office entry, removal leaves none to find. */
  lemma RemoveLeavesNoHeadOffice(ds: seq<ContactEntry>)
    requires CountLabel(ds, HeadOfficeLabel) <= 1
    ensures FindByLabel(RemoveHeadOffice(ds), HeadOfficeLabel).None?
  {
    RemoveDropsHeadOffice(ds);
    var r := RemoveHeadOffice(ds);
    forall j | 0 <= j < |r| ensures r[j].envelope.labelText != HeadOfficeLabel {
      if FindByLabel(ds, HeadOfficeLabel).Some? {
        assert CountLabel(r, HeadOfficeLabel) == 0;
        CountLabelSplit(r, j, HeadOfficeLabel);
      }
    }
  }

  // ---------------------------------------------------------------------
  // Cities of the locations

  /** The text of the cities gathered by `locationCities`, deduplicated,
      sorted and joined; null when no location has an address. */
  function CitiesText(cities: seq<string>): (r: Option<string>)
  {
    var u := Sort(Unique(cities));
    if u == [] then None else Some(Implode(", ", u))
  }

  /** The joined list is the sorted list of the distinct cities, and null
      only when no city was gathered. */
  lemma CitiesTextSpec(cities: seq<string>)
    ensures CitiesText(cities).None? <==> cities == []
    ensures var u := Sort(Unique(cities));
      Sorted(u) && Distinct(u) && (forall c :: c in u <==> c in cities) &&
      (cities != [] ==> CitiesText(cities) == Some(Implode(", ", u)))
  {
    var u := Unique(cities);
    SortCorrect(u);
    SortDistinct(u);
    assert forall c :: c in Sort(u) <==> c in multiset(Sort(u));
    assert cities != [] ==> cities[0] in u;
  }

  /** The text depends only on which cities occur, not on how many times or
      in which order the locations list them. */
  lemma CitiesTextOrderFree(a: seq<string>, b: seq<string>)
    requires forall c :: c in a <==> c in b
    ensures CitiesText(a) == CitiesText(b)
  {
    CitiesTextSpec(a);
    CitiesTextSpec(b);
    SortedDistinctUnique(Sort(Unique(a)), Sort(Unique(b)));
    assert a == [] <==> b == [] by {
      assert a != [] ==> a[0] in b;
      assert b != [] ==> b[0] in a;
    }
  }

  /** Two locations in Moulinsart and one in Las Dopicos. */
  lemma CitiesTextExample(m: string, l: string)
    requires m == "Moulinsart" && l == "Las Dopicos"
    ensures CitiesText([m, m, l]) == Some(l + ", " + m)
  {
    UniqueExample(m, l);
    SortExample(m, l);
  }

  lemma UniqueExample(m: string, l: string)
    requires m == "Moulinsart" && l == "Las Dopicos"
    ensures Unique([m, m, l]) == [m, l]
  {
    assert m != l by { assert m[0] != l[0]; }
    var cities := [m, m, l];
    assert cities[..2] == [m, m];
    assert [m, m][..1] == [m];
    assert Unique([m]) == [m];
    assert Unique([m, m]) == [m];
  }

  lemma SortExample(m: string, l: string)
    requires m == "Moulinsart" && l == "Las Dopicos"
    ensures Sort([m, l]) == [l, m]
  {
    assert m[0] == 'M' && l[0] == 'L';
    assert !LessEq(m, l);
    assert [m, l][1..] == [l];
    assert [l][1..] == [];
    assert Sort([l]) == Insert(l, []) == [l];
    assert Insert(m, [l]) == [l] + Insert(m, []);
  }

  // ---------------------------------------------------------------------
  // Drafts

  /** The attributes `createAsDraft` saves: `is_draft` forced to true, then
      only the mass-assignable columns kept. */
  function DraftAttributes(attrs: map<string, Value>): (r: map<string, Value>)
    ensures r.Keys <= Fillable
    ensures "is_draft" in r && r["is_draft"] == Bool(true)
    ensures forall k :: k in Fillable && k != "is_draft" ==> Get(r, k) == Get(attrs, k)
  {
    var a := attrs["is_draft" := Bool(true)];
    map k | k in a && k in Fillable :: a[k]
  }

  // ---------------------------------------------------------------------
  // The partner

  class Partner {
    /** The saved columns among the mass-assignable ones. */
    var attributes: map<string, Value>
    /** `validated_at`, a point in time when set. */
    var validatedAt: Option<int>
    /** `validator_team_member_id`. */
    var validatorId: Option<int>
    var locations: seq<Location>
    /** The partner's postal-address rows in the order the database returns
      them; the `postalAddress` relation yields the first. */
    var addresses: seq<PostalAddress>
    var phones: seq<ContactEntry>
    var emails: seq<ContactEntry>

    /** `createAsDraft($attributes)`. */
    constructor CreateAsDraft(attrs: map<string, Value>)
      ensures attributes == DraftAttributes(attrs)
      ensures validatedAt == None && validatorId == None
      ensures locations == [] && addresses == [] && phones == [] && emails == []
    {
      attributes := DraftAttributes(attrs);
      validatedAt := None;
      validatorId := None;
      locations := [];
      addresses := [];
      phones := [];
      emails := [];
    }

    function Name(): Value
      reads this
    {
      Get(attributes, "name")
    }

    /** `isValidated()`: `validated_at` holds a date. */
    predicate IsValidated()
      reads this
    {
      validatedAt.Some?
    }

    predicate IsNotValidated()
      reads this
    {
      !IsValidated()
    }

    /** `validate()`, at the time `now` the clock gives. */
    method Validate(now: int)
      modifies this
      ensures validatedAt == Some(now) && IsValidated()
      ensures validatorId == old(validatorId) && attributes == old(attributes)
      ensures locations == old(locations) && addresses == old(addresses)
      ensures phones == old(phones) && emails == old(emails)
    {
      validatedAt := Some(now);
    }

    /** `validateBy($teamMember)`. */
    method ValidateBy(member: TeamMember, now: int)
      modifies this
      ensures validatedAt == Some(now) && validatorId == Some(member.id) && IsValidated()
      ensures attributes == old(attributes)
      ensures locations == old(locations) && addresses == old(addresses)
      ensures phones == old(phones) && emails == old(emails)
    {
      validatorId := Some(member.id);
      Validate(now);
    }

    /** `invalidate()`. */
    method Invalidate()
      modifies this
      ensures validatedAt == None && validatorId == None && IsNotValidated()
      ensures attributes == old(attributes)
      ensures locations == old(locations) && addresses == old(addresses)
      ensures phones == old(phones) && emails == old(emails)
    {
      validatedAt := None;
      validatorId := None;
    }

    /** `hasCurrencyExchange()`: stops at the first location that has one. */
    method HasCurrencyExchange() returns (r: bool)
      ensures r <==> exists i :: 0 <= i < |locations| && locations[i].currencyExchange
    {
      var i := 0;
      while i < |locations|
        invariant 0 <= i <= |locations|
        invariant forall j :: 0 <= j < i ==> !locations[j].currencyExchange
      {
        if locations[i].currencyExchange {
          return true;
        }
        i := i + 1;
      }
      return false;
    }

    /** The cities `locationCities` gathers, in location order: the city of
      each location that has a postal address. */
    function Cities(): (cs: seq<string>)
      reads this, locations
      reads set l | l in locations && l.postalAddress != null :: l.postalAddress
      reads set l | l in locations && l.postalAddress != null :: l.postalAddress.parts
    {
      CitiesOf(locations)
    }

    /** `locationCities()`. */
    method LocationCities() returns (r: Option<string>)
      ensures r == CitiesText(Cities())
    {
      var cities: seq<string> := [];
      var i := 0;
      while i < |locations|
        invariant 0 <= i <= |locations|
        invariant cities == CitiesOf(locations[..i])
      {
        var location := locations[i];
        CitiesOfSnoc(locations[..i], location);
        assert locations[..i + 1] == locations[..i] + [location];
        if location.postalAddress != null {
          cities := cities + [Text(location.postalAddress.Read("city"))];
        }
        i := i + 1;
      }
      assert locations[..i] == locations;
      var u := Unique(cities);
      u := Sort(u);
      if u == [] {
        return None;
      }
      return Some(Implode(", ", u));
    }

    /** `getHeadOfficeAddress()`: the partner's postal address when it is
      labelled for the head office, otherwise none. */
    function GetHeadOfficeAddress(): PostalAddress?
      reads this, addresses
    {
      if |addresses| > 0 && addresses[0].envelope.labelText == HeadOfficeLabel then addresses[0] else null
    }

    /** `setHeadOfficeAddress($parts)`: the recipient defaults to the
      partner's name; an existing head-office address is modified key by key,
      otherwise a new private address labelled for the head office is
      attached. A rejected component is reported as the error. */
    method SetHeadOfficeAddress(kvs: Assoc) returns (err: Option<AddressError>)
      modifies this, if GetHeadOfficeAddress() != null then {addresses[0], addresses[0].parts} else {}
      ensures attributes == old(attributes) && validatedAt == old(validatedAt) && validatorId == old(validatorId)
      ensures locations == old(locations) && phones == old(phones) && emails == old(emails)
      ensures old(GetHeadOfficeAddress()) != null ==>
        var h := old(GetHeadOfficeAddress());
        addresses == old(addresses) && h.parts == old(h.parts) &&
        h.usePostalFormat == old(h.usePostalFormat) &&
        h.contactableType == old(h.contactableType) && h.contactable == old(h.contactable) &&
        (h.State(), err) == ModifyAll(old(h.State()), AddressParts(old(Name()), kvs))
      ensures old(|addresses|) == 0 && err.None? ==>
        GetHeadOfficeAddress() != null && GetHeadOfficeAddress().parts.m == ToMap(AddressParts(old(Name()), kvs))
      ensures old(|addresses|) > 0 && old(GetHeadOfficeAddress()) == null ==> GetHeadOfficeAddress() == null
      ensures old(GetHeadOfficeAddress()) == null ==>
        err == CheckAddress(ToMap(AddressParts(old(Name()), kvs))) &&
        (err.Some? ==> addresses == old(addresses)) &&
        (err.None? ==>
          |addresses| == old(|addresses|) + 1 && addresses[..old(|addresses|)] == old(addresses) &&
          var a := addresses[old(|addresses|)];
          fresh(a) && fresh(a.parts) && a.parts.m == ToMap(AddressParts(old(Name()), kvs)) &&
          a.envelope.labelText == HeadOfficeLabel && !a.envelope.isPublic &&
          a.contactableType == PartnerClass && !a.usePostalFormat)
    {
      var parts := AddressParts(Name(), kvs);
      var address := GetHeadOfficeAddress();
      if address != null {
        var _, e := address.Modify(parts);
        err := e;
      } else {
        err := AttachHeadOfficeAddress(parts);
      }
    }

    /** The branch of `setHeadOfficeAddress` without an existing head-office
      address: a valid address is created and attached at the end. */
    method AttachHeadOfficeAddress(parts: Assoc) returns (err: Option<AddressError>)
      modifies this
      ensures attributes == old(attributes) && validatedAt == old(validatedAt) && validatorId == old(validatorId)
      ensures locations == old(locations) && phones == old(phones) && emails == old(emails)
      ensures err == CheckAddress(ToMap(parts))
      ensures err.Some? ==> addresses == old(addresses)
      ensures err.None? ==>
        |addresses| == old(|addresses|) + 1 && addresses[..old(|addresses|)] == old(addresses) &&
        var a := addresses[old(|addresses|)];
        fresh(a) && fresh(a.parts) && a.parts.m == ToMap(parts) &&
        a.envelope.labelText == HeadOfficeLabel && !a.envelope.isPublic &&
        a.contactableType == PartnerClass && !a.usePostalFormat
    {
      var created: PostalAddress?;
      created, err := PostalAddress.FromArray(parts);
      if created != null {
        created.envelope := created.envelope.(labelText := HeadOfficeLabel, isPublic := false);
        created.contactableType := PartnerClass;
        addresses := addresses + [created];
      }
    }

    /** `getHeadOfficePhone()`. */
    function GetHeadOfficePhone(): Option<ContactEntry>
      reads this
    {
      match FindByLabel(phones, HeadOfficeLabel)
      case Some(i) => Some(phones[i])
      case None => None
    }

    /** `setHeadOfficePhone($number, $isPublic)`. */
    method SetHeadOfficePhone(number: string, isPublic: Value)
      modifies this
      ensures phones == UpsertHeadOffice(old(phones), number, !Empty(isPublic))
      ensures emails == old(emails) && addresses == old(addresses) && locations == old(locations)
      ensures attributes == old(attributes) && validatedAt == old(validatedAt) && validatorId == old(validatorId)
    {
      phones := UpsertHeadOffice(phones, number, !Empty(isPublic));
    }

    /** `removeHeadOfficePhone()`. */
    method RemoveHeadOfficePhone()
      modifies this
      ensures phones == RemoveHeadOffice(old(phones))
      ensures emails == old(emails) && addresses == old(addresses) && locations == old(locations)
      ensures attributes == old(attributes) && validatedAt == old(validatedAt) && validatorId == old(validatorId)
    {
      phones := RemoveHeadOffice(phones);
    }

    /** `getHeadOfficeEmail()`. */
    function GetHeadOfficeEmail(): Option<ContactEntry>
      reads this
    {
      match FindByLabel(emails, HeadOfficeLabel)
      case Some(i) => Some(emails[i])
      case None => None
    }

    /** `setHeadOfficeEmail($address, $isPublic)`. */
    method SetHeadOfficeEmail(address: string, isPublic: Value)
      modifies this
      ensures emails == UpsertHeadOffice(old(emails), address, !Empty(isPublic))
      ensures phones == old(phones) && addresses == old(addresses) && locations == old(locations)
      ensures attributes == old(attributes) && validatedAt == old(validatedAt) && validatorId == old(validatorId)
    {
      emails := UpsertHeadOffice(emails, address, !Empty(isPublic));
    }

    /** `removeHeadOfficeEmail()`. */
    method RemoveHeadOfficeEmail()
      modifies this
      ensures emails == RemoveHeadOffice(old(emails))
      ensures phones == old(phones) && addresses == old(addresses) && locations == old(locations)
      ensures attributes == old(attributes) && validatedAt == old(validatedAt) && validatorId == old(validatorId)
    {
      emails := RemoveHeadOffice(emails);
    }
  }

  /** The parts `setHeadOfficeAddress` hands on: the partner's name as
      recipient, then the caller's keys written over it. */
  function AddressParts(name: Value, kvs: Assoc): Assoc {
    Merge([("recipient", name)], kvs)
  }

  /** The caller's recipient wins; without one the recipient is the
      partner's name, even when an existing address had another. */
  lemma AddressPartsRecipient(name: Value, kvs: Assoc)
    ensures var m := ToMap(AddressParts(name, kvs));
      "recipient" in m &&
      m["recipient"] == (if "recipient" in ToMap(kvs) then ToMap(kvs)["recipient"] else name) &&
      forall k :: k != "recipient" ==> (k in m <==> k in ToMap(kvs)) && (k in m ==> m[k] == ToMap(kvs)[k])
  {
    var a := [("recipient", name)];
    assert Keys(a) == ["recipient"];
    MergeToMap(a, kvs);
    assert ToMap(a) == map["recipient" := name] by {
      assert a[1..] == [];
    }
  }

  /** The city each location contributes, in order. */
  function CitiesOf(locs: seq<Location>): (cs: seq<string>)
    reads locs
    reads set l | l in locs && l.postalAddress != null :: l.postalAddress
    reads set l | l in locs && l.postalAddress != null :: l.postalAddress.parts
    ensures |cs| <= |locs|
    ensures (forall l :: l in locs ==> l.postalAddress == null) <==> cs == []
  {
    if locs == [] then []
    else
      var last := locs[|locs| - 1];
      var init := CitiesOf(locs[..|locs| - 1]);
      if last.postalAddress != null then init + [Text(last.postalAddress.Read("city"))] else init
  }

  lemma CitiesOfSnoc(locs: seq<Location>, l: Location)
    ensures CitiesOf(locs + [l]) ==
      CitiesOf(locs) + (if l.postalAddress != null then [Text(l.postalAddress.Read("city"))] else [])
  {
    assert (locs + [l])[..|locs|] == locs;
  }
}

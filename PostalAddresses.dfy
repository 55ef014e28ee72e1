/** Postal addresses: the required components and the postal-code pattern,
    writes by property name that re-validate the whole address, the compact
    and postal-mail renderings, and the locations whose cached city follows
    their address. */
module PostalAddresses {
  import opened Php
  import opened ContactDetails

  /** The components of an address, by snake_case key. */
  type PartMap = map<string, Value>

  datatype AddressError =
    | MissingPart(part: string)        // "Missing [part] component in postal address."
    | InvalidPostalCode(code: string)  // "Postal code [code] is invalid."

  const RequiredParts: seq<string> := ["street", "postal_code", "city"]

  /** The type tag Eloquent stores for an address owned by a location. */
  const LocationClass := "App\\Location"

  /** `$parts->{$key} ?? null`: an absent component reads as null, so
      `empty()` holds for it and it renders as the empty string. */
  function Get(parts: PartMap, key: string): (v: Value)
    ensures key !in parts ==> Empty(v) && Text(v) == ""
  {
    if key in parts then parts[key] else Null
  }

  // ---------------------------------------------------------------------
  // Validation

  predicate IsDigit(c: char) {
    '0' <= c <= '9'
  }

  predicate FourDigits(s: string) {
    |s| == 4 && forall i :: 0 <= i < 4 ==> IsDigit(s[i])
  }

  /** `preg_match('#^[0-9]{4}$#', $s)`. Without the D modifier PCRE's `$`
      also matches right before a final newline. */
  predicate PostalCodeMatches(s: string) {
    FourDigits(s) || (|s| == 5 && FourDigits(s[..4]) && s[4] == '\n')
  }

  /** The first of `names` whose component is empty, if any. */
  function FirstMissing(parts: PartMap, names: seq<string>): (r: Option<string>)
    ensures r.Some? ==> r.value in names && Empty(Get(parts, r.value))
  {
    if names == [] then None
    else if Empty(Get(parts, names[0])) then Some(names[0])
    else FirstMissing(parts, names[1..])
  }

  /** What `validateAddress` throws, if anything: the first empty required
      component, then a postal code that does not match the pattern. */
  function CheckAddress(parts: PartMap): Option<AddressError>
  {
    match FirstMissing(parts, RequiredParts)
    case Some(p) => Some(MissingPart(p))
    case None =>
      var code := Text(Get(parts, "postal_code"));
      if PostalCodeMatches(code) then None else Some(InvalidPostalCode(code))
  }

  /** `validateAddress($parts)`: loops over the required components and
      stops at the first empty one, then checks the postal code. */
  method ValidateAddress(parts: PartMap) returns (err: Option<AddressError>)
    ensures err == CheckAddress(parts)
  {
    var i := 0;
    while i < |RequiredParts|
      invariant 0 <= i <= |RequiredParts|
      invariant FirstMissing(parts, RequiredParts) == FirstMissing(parts, RequiredParts[i..])
    {
      var part := RequiredParts[i];
      assert RequiredParts[i..][1..] == RequiredParts[i + 1..];
      if Empty(Get(parts, part)) {
        return Some(MissingPart(part));
      }
      i := i + 1;
    }
    var code := Text(Get(parts, "postal_code"));
    if !PostalCodeMatches(code) {
      return Some(InvalidPostalCode(code));
    }
    return None;
  }

  lemma {:induction false} FirstMissingNone(parts: PartMap, names: seq<string>)
    ensures FirstMissing(parts, names) == None <==> forall i :: 0 <= i < |names| ==> !Empty(Get(parts, names[i]))
  {
    if names != [] {
      FirstMissingNone(parts, names[1..]);
      assert forall i :: 1 <= i < |names| ==> names[1..][i - 1] == names[i];
    }
  }

  /** An address is accepted exactly when street, postal code and city are
      all non-empty (PHP's `empty`) and the postal code matches the pattern. */
  lemma AddressValidIff(parts: PartMap)
    ensures CheckAddress(parts) == None <==>
      !Empty(Get(parts, "street")) && !Empty(Get(parts, "postal_code")) && !Empty(Get(parts, "city")) &&
      PostalCodeMatches(Text(Get(parts, "postal_code")))
  {
    FirstMissingNone(parts, RequiredParts);
    assert RequiredParts[0] == "street" && RequiredParts[1] == "postal_code" && RequiredParts[2] == "city";
  }

  /** A missing component is reported by name: the first of street, postal
      code and city, in that order, that is empty. */
  lemma MissingPartReported(parts: PartMap)
    ensures Empty(Get(parts, "street")) ==> CheckAddress(parts) == Some(MissingPart("street"))
    ensures !Empty(Get(parts, "street")) && Empty(Get(parts, "postal_code")) ==>
      CheckAddress(parts) == Some(MissingPart("postal_code"))
    ensures !Empty(Get(parts, "street")) && !Empty(Get(parts, "postal_code")) && Empty(Get(parts, "city")) ==>
      CheckAddress(parts) == Some(MissingPart("city"))
  {
    var rest: seq<string> := ["postal_code", "city"];
    var last: seq<string> := ["city"];
    assert RequiredParts[0] == "street" && RequiredParts[1..] == rest;
    assert rest[0] == "postal_code" && rest[1..] == last;
    assert last[0] == "city" && last[1..] == [];
    assert FirstMissing(parts, RequiredParts) ==
      if Empty(Get(parts, "street")) then Some("street") else FirstMissing(parts, rest);
    assert FirstMissing(parts, rest) ==
      if Empty(Get(parts, "postal_code")) then Some("postal_code") else FirstMissing(parts, last);
    assert FirstMissing(parts, last) == if Empty(Get(parts, "city")) then Some("city") else None;
  }

  /** A postal code that is not four digits is rejected even when every
      required component is present. */
  lemma InvalidPostalCodeRejected(parts: PartMap)
    requires !Empty(Get(parts, "street")) && !Empty(Get(parts, "postal_code")) && !Empty(Get(parts, "city"))
    requires !PostalCodeMatches(Text(Get(parts, "postal_code")))
    ensures CheckAddress(parts) == Some(InvalidPostalCode(Text(Get(parts, "postal_code"))))
  {
    FirstMissingNone(parts, RequiredParts);
  }

  /** PHP's `empty` counts "0" as missing: a street named "0" is refused. */
  lemma ZeroCountsAsMissing(parts: PartMap)
    requires Get(parts, "street") == Str("0")
    ensures CheckAddress(parts) == Some(MissingPart("street"))
  {
    MissingPartReported(parts);
  }

  /** The `$` anchor lets a postal code with a trailing newline through. */
  lemma TrailingNewlineAccepted()
    ensures CheckAddress(map["street" := Str("rue du Château"), "postal_code" := Str("1234\n"),
                             "city" := Str("Moulinsart")]) == None
  {
    var parts := map["street" := Str("rue du Château"), "postal_code" := Str("1234\n"), "city" := Str("Moulinsart")];
    var code := "1234\n";
    assert code[..4] == "1234";
    assert PostalCodeMatches(code);
    AddressValidIff(parts);
  }

  // ---------------------------------------------------------------------
  // Property names

  /** The names `__set` claims for the components. */
  const WritableNames: set<string> := {
    "recipient", "street", "streetNumber", "street_number", "letterBox", "letter_box",
    "postalCode", "postal_code", "city", "latitude", "longitude", "isGeolocatable", "is_geolocatable"
  }

  /** The names `__get` claims for the components (camelCase only). */
  const ReadableNames: set<string> := {
    "recipient", "street", "streetNumber", "letterBox", "postalCode", "city",
    "latitude", "longitude", "isGeolocatable"
  }

  /** The component keys those names are stored under. */
  const PartKeys: set<string> := {
    "recipient", "street", "street_number", "letter_box", "postal_code", "city",
    "latitude", "longitude", "is_geolocatable"
  }

  /** Both spellings of a two-word component name reach the same
      snake_case key: `Str::snake` inserts the underscore before the
      capital and leaves the snake_case spelling as it is. */
  lemma BothSpellingsOneKey(head: string, upper: char, tail: string)
    requires head != [] && 'A' <= upper <= 'Z'
    requires forall i :: 0 <= i < |head| ==> 'a' <= head[i] <= 'z'
    requires forall i :: 0 <= i < |tail| ==> 'a' <= tail[i] <= 'z'
    ensures Snake(head + [upper] + tail) == head + "_" + [Lower(upper)] + tail
    ensures Snake(head + "_" + [Lower(upper)] + tail) == head + "_" + [Lower(upper)] + tail
  {
    SnakeCamel(head, upper, tail);
    var snake := head + "_" + [Lower(upper)] + tail;
    assert forall i :: 0 <= i < |snake| ==> !('A' <= snake[i] <= 'Z') by {
      forall i | 0 <= i < |snake| ensures !('A' <= snake[i] <= 'Z') {
        if i < |head| { assert snake[i] == head[i]; }
        else if i > |head| + 1 { assert snake[i] == tail[i - |head| - 2]; }
      }
    }
  }

  /** `streetNumber` is stored under `street_number`. */
  lemma StreetNumberKey(name: string)
    requires name == "streetNumber"
    ensures Snake(name) == "street_number"
  {
    assert forall i :: 0 <= i < |name| && i != 6 ==> 'a' <= name[i] <= 'z';
    SnakeCamelAt(name, 6);
    assert name[..6] == "street";
    assert name[7..] == "umber";
  }

  /** `Str::snake` on a camelCase name whose only capital is at `k`. */
  lemma SnakeCamelAt(name: string, k: nat)
    requires 0 < k < |name| && 'A' <= name[k] <= 'Z'
    requires forall i :: 0 <= i < |name| && i != k ==> 'a' <= name[i] <= 'z'
    ensures Snake(name) == name[..k] + "_" + [Lower(name[k])] + name[k + 1..]
  {
    assert name == name[..k] + [name[k]] + name[k + 1..];
    SnakeCamel(name[..k], name[k], name[k + 1..]);
  }

  /** `Str::snake` on a two-word camelCase name. */
  lemma SnakeCamel(head: string, upper: char, tail: string)
    requires head != [] && 'A' <= upper <= 'Z'
    requires forall i :: 0 <= i < |head| ==> 'a' <= head[i] <= 'z'
    requires forall i :: 0 <= i < |tail| ==> 'a' <= tail[i] <= 'z'
    ensures Snake(head + [upper] + tail) == head + "_" + [Lower(upper)] + tail
  {
    var t := [upper] + tail;
    var lowered := "_" + [Lower(upper)] + tail;
    assert Snake(head) == head;
    SnakeTailUpperFirst(upper, tail);
    SnakeAppend(head, t);
    ConcatAssoc(head, [upper], tail);
    ConcatAssoc(head, "_" + [Lower(upper)], tail);
    ConcatAssoc(head, "_", [Lower(upper)]);
  }

  lemma SnakeTailCamel(head: string, upper: char, tail: string)
    requires 'A' <= upper <= 'Z'
    requires forall i :: 0 <= i < |head| ==> 'a' <= head[i] <= 'z'
    requires forall i :: 0 <= i < |tail| ==> 'a' <= tail[i] <= 'z'
    ensures SnakeTail(head + [upper] + tail) == head + "_" + [Lower(upper)] + tail
  {
    var t := [upper] + tail;
    var lowered := "_" + [Lower(upper)] + tail;
    SnakeTailKeeps(head);
    SnakeTailUpperFirst(upper, tail);
    SnakeTailJoin(head, t, lowered);
    ConcatAssoc(head, [upper], tail);
    ConcatAssoc(head, "_" + [Lower(upper)], tail);
    ConcatAssoc(head, "_", [Lower(upper)]);
  }

  lemma SnakeTailJoin(head: string, t: string, lowered: string)
    requires SnakeTail(head) == head && SnakeTail(t) == lowered
    ensures SnakeTail(head + t) == head + lowered
  {
    SnakeTailAppend(head, t);
  }

  lemma SnakeTailUpperFirst(upper: char, tail: string)
    requires 'A' <= upper <= 'Z'
    requires forall i :: 0 <= i < |tail| ==> 'a' <= tail[i] <= 'z'
    ensures SnakeTail([upper] + tail) == "_" + [Lower(upper)] + tail
  {
    assert ([upper] + tail)[1..] == tail;
    SnakeTailLower(tail);
  }

  /** The coordinates are read and stored under their own names. */
  lemma GeoNameKey(name: string)
    requires name == "latitude" || name == "longitude"
    ensures name in ReadableNames && name in WritableNames && Snake(name) == name
  {
    assert forall i :: 0 <= i < |name| ==> 'a' <= name[i] <= 'z';
  }

  /** The component key a write by `name` goes to, if the address claims the name. */
  function WriteKey(name: string): Option<string> {
    if name in WritableNames then Some(Snake(name)) else None
  }

  // ---------------------------------------------------------------------
  // Writes

  /** The state a write changes: the components and the envelope. */
  datatype AddressState = AddressState(parts: PartMap, envelope: Envelope)

  /** `__set($name, $value)`: a component is written first and the whole
      address re-validated afterwards, so a failed write leaves its value in
      place; any other name goes to the envelope. */
  function Write(st: AddressState, name: string, v: Value): (r: (AddressState, Option<AddressError>))
  {
    match WriteKey(name)
    case Some(key) =>
      var parts := st.parts[key := v];
      (st.(parts := parts), CheckAddress(parts))
    case None => (st.(envelope := EnvelopeWrite(st.envelope, name, v)), None)
  }

  /** `modify($parts)`: the writes in iteration order, each validated on its
      own; the first failure stops the loop. */
  function ModifyAll(st: AddressState, kvs: Assoc): (AddressState, Option<AddressError>)
    decreases |kvs|
  {
    if kvs == [] then (st, None)
    else
      var (st1, err) := Write(st, kvs[0].0, kvs[0].1);
      if err.Some? then (st1, err) else ModifyAll(st1, kvs[1..])
  }

  /** A component write stores the value under the snake_case key, leaves
      every other key alone and reports the validation of the result. */
  lemma WriteComponent(st: AddressState, name: string, v: Value)
    requires name in WritableNames
    ensures var r := Write(st, name, v);
      Get(r.0.parts, Snake(name)) == v &&
      (forall k :: k != Snake(name) ==> Get(r.0.parts, k) == Get(st.parts, k)) &&
      r.0.envelope == st.envelope &&
      r.1 == CheckAddress(r.0.parts)
  {
    var key := Snake(name);
    assert WriteKey(name) == Some(key);
    WriteAtKey(st, name, key, v);
    UpdateGet(st.parts, key, v);
  }

  lemma UpdateGet(parts: PartMap, key: string, v: Value)
    ensures Get(parts[key := v], key) == v
    ensures forall k :: k != key ==> Get(parts[key := v], k) == Get(parts, k)
  {
  }

  lemma WriteAtKey(st: AddressState, name: string, key: string, v: Value)
    requires WriteKey(name) == Some(key)
    ensures Write(st, name, v) == (st.(parts := st.parts[key := v]), CheckAddress(st.parts[key := v]))
  {
  }

  /** `__get($name)` on the state: components by their camelCase names,
      an absent one as null, the rest from the envelope. */
  function ReadName(st: AddressState, name: string): Value {
    if name in ReadableNames then Get(st.parts, Snake(name)) else EnvelopeRead(st.envelope, name)
  }

  /** A component written by its camelCase name reads back as written. */
  lemma ReadAfterWrite(st: AddressState, name: string, v: Value)
    requires name in ReadableNames
    ensures ReadName(Write(st, name, v).0, name) == v
  {
    assert name in WritableNames;
    WriteAtKey(st, name, Snake(name), v);
  }

  /** A modification that succeeds on a valid address leaves it valid. */
  lemma {:induction false} ModifyKeepsValid(st: AddressState, kvs: Assoc)
    requires CheckAddress(st.parts) == None
    requires ModifyAll(st, kvs).1 == None
    ensures CheckAddress(ModifyAll(st, kvs).0.parts) == None
    decreases |kvs|
  {
    if kvs != [] {
      var (st1, err) := Write(st, kvs[0].0, kvs[0].1);
      ModifyKeepsValid(st1, kvs[1..]);
    }
  }

  /** Key `i` is where a batch fails and what it leaves: the writes before
      it succeed, it names a component, and the final state is that write
      applied after them, holding the value written (nothing is rolled back). */
  predicate FailsAt(st: AddressState, kvs: Assoc, i: nat)
    requires i < |kvs|
  {
    ModifyAll(st, kvs[..i]).1 == None && WriteKey(kvs[i].0).Some? &&
    ModifyAll(st, kvs) == Write(ModifyAll(st, kvs[..i]).0, kvs[i].0, kvs[i].1) &&
    Get(ModifyAll(st, kvs).0.parts, WriteKey(kvs[i].0).value) == kvs[i].1
  }

  /** A modification that fails leaves the address holding the value that
      failed: some key is where it fails, and the components are invalid
      when the error is reported. */
  lemma {:induction false} ModifyFailureLeavesInvalidParts(st: AddressState, kvs: Assoc)
    requires ModifyAll(st, kvs).1.Some?
    ensures CheckAddress(ModifyAll(st, kvs).0.parts) == ModifyAll(st, kvs).1
    ensures exists i :: 0 <= i < |kvs| && FailsAt(st, kvs, i)
    decreases |kvs|
  {
    var (st1, err) := Write(st, kvs[0].0, kvs[0].1);
    if err.None? {
      ModifyFailureLeavesInvalidParts(st1, kvs[1..]);
      var j :| 0 <= j < |kvs[1..]| && FailsAt(st1, kvs[1..], j);
      FailsLater(st, kvs, j);
    } else {
      FailsFirst(st, kvs);
    }
  }

  lemma FailsFirst(st: AddressState, kvs: Assoc)
    requires kvs != [] && Write(st, kvs[0].0, kvs[0].1).1.Some?
    ensures FailsAt(st, kvs, 0)
  {
    assert kvs[..0] == [];
  }

  lemma FailsLater(st: AddressState, kvs: Assoc, j: nat)
    requires j + 1 < |kvs| && Write(st, kvs[0].0, kvs[0].1).1 == None
    requires FailsAt(Write(st, kvs[0].0, kvs[0].1).0, kvs[1..], j)
    ensures FailsAt(st, kvs, j + 1)
  {
    PrefixTail(kvs, j);
    ModifyStep(st, kvs[..j + 1]);
    ModifyStep(st, kvs);
  }

  lemma PrefixTail(kvs: Assoc, j: nat)
    requires j < |kvs| - 1
    ensures kvs[..j + 1][0] == kvs[0] && kvs[..j + 1][1..] == kvs[1..][..j] && kvs[1..][j] == kvs[j + 1]
  {
    assert |kvs[..j + 1][1..]| == j == |kvs[1..][..j]|;
    forall k | 0 <= k < j
      ensures kvs[..j + 1][1..][k] == kvs[1..][..j][k]
    {
    }
  }

  /** One step of `modify()`: a first write that succeeds is followed by the rest. */
  lemma ModifyStep(st: AddressState, kvs: Assoc)
    requires kvs != [] && Write(st, kvs[0].0, kvs[0].1).1 == None
    ensures ModifyAll(st, kvs) == ModifyAll(Write(st, kvs[0].0, kvs[0].1).0, kvs[1..])
  {
  }

  /** The state a batch reaches when every write is applied and the
      address is checked only once, at the end. */
  function WriteAll(st: AddressState, kvs: Assoc): AddressState
    decreases |kvs|
  {
    if kvs == [] then st else WriteAll(Write(st, kvs[0].0, kvs[0].1).0, kvs[1..])
  }

  /** No component is written twice in the batch, under either spelling. */
  predicate DistinctWrites(kvs: Assoc) {
    forall i, j :: 0 <= i < j < |kvs| && WriteKey(kvs[i].0).Some? ==> WriteKey(kvs[i].0) != WriteKey(kvs[j].0)
  }

  /** No write of the batch goes to component `key`. */
  predicate NotWritten(kvs: Assoc, key: string) {
    forall j :: 0 <= j < |kvs| ==> WriteKey(kvs[j].0) != Some(key)
  }

  /** The condition validation places on one required component. */
  predicate ComponentOk(parts: PartMap, key: string) {
    !Empty(Get(parts, key)) && (key == "postal_code" ==> PostalCodeMatches(Text(Get(parts, key))))
  }

  lemma CheckByComponent(parts: PartMap)
    ensures CheckAddress(parts) == None <==>
      ComponentOk(parts, "street") && ComponentOk(parts, "postal_code") && ComponentOk(parts, "city")
  {
    AddressValidIff(parts);
  }

  /** The components after one write, whichever name it uses. */
  lemma WriteParts(st: AddressState, name: string, v: Value)
    ensures Write(st, name, v).0.parts ==
      if WriteKey(name).Some? then st.parts[WriteKey(name).value := v] else st.parts
  {
    match WriteKey(name)
    case Some(key) =>
    case None =>
  }

  /** A component the batch never writes keeps its value. */
  lemma {:induction false} WriteAllKeeps(st: AddressState, kvs: Assoc, key: string)
    requires NotWritten(kvs, key)
    ensures Get(WriteAll(st, kvs).parts, key) == Get(st.parts, key)
    decreases |kvs|
  {
    if kvs != [] {
      var name, v, rest := kvs[0].0, kvs[0].1, kvs[1..];
      var st1 := Write(st, name, v).0;
      WriteParts(st, name, v);
      assert Get(st1.parts, key) == Get(st.parts, key) by {
        if WriteKey(name).Some? {
          assert WriteKey(name) != Some(key);
          UpdateGet(st.parts, WriteKey(name).value, v);
        }
      }
      assert forall j :: 0 <= j < |rest| ==> rest[j] == kvs[j + 1];
      assert NotWritten(rest, key);
      WriteAllKeeps(st1, rest, key);
    }
  }

  /** From a valid address, with each component written at most once,
      checking after every key and checking once at the end agree: every
      condition of validation reads a single component. */
  lemma {:induction false} ModifyAgreesWithWriteAll(st: AddressState, kvs: Assoc)
    requires CheckAddress(st.parts) == None
    requires DistinctWrites(kvs)
    ensures ModifyAll(st, kvs).1 == None <==> CheckAddress(WriteAll(st, kvs).parts) == None
    decreases |kvs|
  {
    if kvs != [] {
      var name, v, rest := kvs[0].0, kvs[0].1, kvs[1..];
      var (st1, err) := Write(st, name, v);
      assert forall j :: 0 <= j < |rest| ==> rest[j] == kvs[j + 1];
      assert DistinctWrites(rest);
      match WriteKey(name)
      case None =>
        ModifyAgreesWithWriteAll(st1, rest);
      case Some(key) =>
        WriteAtKey(st, name, key, v);
        UpdateGet(st.parts, key, v);
        assert NotWritten(rest, key);
        WriteAllKeeps(st1, rest, key);
        var fin := WriteAll(st1, rest).parts;
        CheckByComponent(st.parts);
        CheckByComponent(st1.parts);
        CheckByComponent(fin);
        if CheckAddress(fin) == None {
          assert ComponentOk(st1.parts, "street") by {
            if key != "street" { assert Get(st1.parts, "street") == Get(st.parts, "street"); }
          }
          assert ComponentOk(st1.parts, "postal_code") by {
            if key != "postal_code" { assert Get(st1.parts, "postal_code") == Get(st.parts, "postal_code"); }
          }
          assert ComponentOk(st1.parts, "city") by {
            if key != "city" { assert Get(st1.parts, "city") == Get(st.parts, "city"); }
          }
        }
        if err == None {
          ModifyAgreesWithWriteAll(st1, rest);
        }
    }
  }

  /** Validation after every key, not once per batch: an address whose
      street was left empty by a failed write cannot be repaired by a batch
      that writes the city before the street. The first conjunct records
      that the batch's values must win the merge for the whole to be valid:
      with the old components winning, the empty street would remain. */
  lemma ModifyValidatesEachKey()
    ensures var st := AddressState(map["street" := Str(""), "postal_code" := Str("1234"), "city" := Str("Moulinsart")], NewEnvelope);
      var kvs := [("city", Str("Bruxelles")), ("street", Str("rue Haute"))];
      CheckAddress(ToMap(kvs) + st.parts) != None &&
      CheckAddress(st.parts + ToMap(kvs)) == None &&
      ModifyAll(st, kvs).1 == Some(MissingPart("street"))
  {
    var st := AddressState(map["street" := Str(""), "postal_code" := Str("1234"), "city" := Str("Moulinsart")], NewEnvelope);
    var kvs := [("city", Str("Bruxelles")), ("street", Str("rue Haute"))];
    MergedAddressValid(st.parts, kvs);
    StaleStreetRejected(st.parts, kvs);
    FirstWriteRejected(st, kvs);
  }

  lemma MergedAddressValid(parts: PartMap, kvs: Assoc)
    requires parts == map["street" := Str(""), "postal_code" := Str("1234"), "city" := Str("Moulinsart")]
    requires kvs == [("city", Str("Bruxelles")), ("street", Str("rue Haute"))]
    ensures CheckAddress(parts + ToMap(kvs)) == None
  {
    assert ToMap(kvs[1..]) == map["street" := Str("rue Haute")] by { assert kvs[1..][1..] == []; }
    assert ToMap(kvs) == map["city" := Str("Bruxelles"), "street" := Str("rue Haute")];
    var m := parts + ToMap(kvs);
    assert Get(m, "street") == Str("rue Haute") && Get(m, "city") == Str("Bruxelles");
    assert Get(m, "postal_code") == Str("1234");
    assert "1234"[..4] == "1234";
    assert PostalCodeMatches("1234");
    AddressValidIff(parts + ToMap(kvs));
  }

  lemma StaleStreetRejected(parts: PartMap, kvs: Assoc)
    requires parts == map["street" := Str(""), "postal_code" := Str("1234"), "city" := Str("Moulinsart")]
    requires kvs == [("city", Str("Bruxelles")), ("street", Str("rue Haute"))]
    ensures CheckAddress(ToMap(kvs) + parts) == Some(MissingPart("street"))
  {
    MissingPartReported(ToMap(kvs) + parts);
  }

  lemma FirstWriteRejected(st: AddressState, kvs: Assoc)
    requires st == AddressState(map["street" := Str(""), "postal_code" := Str("1234"), "city" := Str("Moulinsart")], NewEnvelope)
    requires kvs == [("city", Str("Bruxelles")), ("street", Str("rue Haute"))]
    ensures ModifyAll(st, kvs).1 == Some(MissingPart("street"))
  {
    var p1 := st.parts["city" := Str("Bruxelles")];
    MissingPartReported(p1);
    assert Write(st, "city", Str("Bruxelles")) == (st.(parts := p1), Some(MissingPart("street")));
  }

  // ---------------------------------------------------------------------
  // Rendering

  /** `formatStreetAddress($parts)`. */
  function StreetLine(parts: PartMap, postal: bool): string {
    var number := Get(parts, "street_number");
    var box := Get(parts, "letter_box");
    UcFirst(Text(Get(parts, "street")))
      + (if !Empty(number) then " " + Text(number) else "")
      + (if postal && !Empty(box) then " bte " + Text(box) else "")
  }

  /** `__toString()`. */
  function AddressText(parts: PartMap, postal: bool): string {
    if postal then
      Text(Get(parts, "recipient")) + "\n" + StreetLine(parts, true) + "\n" +
      Text(Get(parts, "postal_code")) + " " + Text(Get(parts, "city"))
    else
      StreetLine(parts, false) + "\n" + Text(Get(parts, "city"))
  }

  const PostalHtmlOpen := "<div class=\"h-card\" translate=\"no\">"
  const CompactHtmlOpen := "<p class=\"h-adr\" translate=\"no\">\n"
  const NameOpen := "<p class=\"p-name\">"
  const AdrOpen := "<p class=\"p-adr h-adr\">"
  const StreetOpen := "<span class=\"p-street-address\">"
  const PostalCodeOpen := "<span class=\"p-postal-code\">"
  const LocalityOpen := "<span class=\"p-locality\">"

  /** The pieces `toHtml()` concatenates: an h-card holding the recipient
      and an h-adr in postal-mail mode, a bare h-adr otherwise. Nothing is
      escaped. */
  function HtmlPieces(parts: PartMap, postal: bool): seq<string> {
    if postal then
      PostalPieces(Text(Get(parts, "recipient")), StreetLine(parts, true),
                   Text(Get(parts, "postal_code")), Text(Get(parts, "city")))
    else
      CompactPieces(StreetLine(parts, false), Text(Get(parts, "city")))
  }

  function PostalPieces(recipient: string, street: string, code: string, city: string): seq<string> {
    [PostalHtmlOpen,
     NameOpen, recipient, "</p>",
     AdrOpen,
     StreetOpen, street, "</span><br>",
     PostalCodeOpen, code, "</span> ",
     LocalityOpen, city, "</span>",
     "</p></div>"]
  }

  function CompactPieces(street: string, city: string): seq<string> {
    [CompactHtmlOpen,
     StreetOpen, street, "</span><br>\n",
     LocalityOpen, city, "</span>\n",
     "</p>"]
  }

  lemma PostalPiecesShape(recipient: string, street: string, code: string, city: string)
    ensures var ps := PostalPieces(recipient, street, code, city);
      |ps| == 15 && ps[1] == NameOpen && ps[2] == recipient && ps[3] == "</p>" &&
      ps[5] == StreetOpen && ps[6] == street && ps[7] == "</span><br>" &&
      ps[8] == PostalCodeOpen && ps[9] == code && ps[10] == "</span> " &&
      ps[11] == LocalityOpen && ps[12] == city && ps[13] == "</span>"
  {
  }

  lemma CompactPiecesShape(street: string, city: string)
    ensures var ps := CompactPieces(street, city);
      |ps| == 8 && ps[1] == StreetOpen && ps[2] == street && ps[3] == "</span><br>\n" &&
      ps[4] == LocalityOpen && ps[5] == city && ps[6] == "</span>\n"
  {
  }

  /** The postal-mail pieces of an address, named. */
  lemma PostalHtmlPieces(parts: PartMap)
    ensures var ps := HtmlPieces(parts, true);
      |ps| == 15 && ps[1] == NameOpen && ps[2] == Text(Get(parts, "recipient")) && ps[3] == "</p>" &&
      ps[5] == StreetOpen && ps[6] == StreetLine(parts, true) && ps[7] == "</span><br>" &&
      ps[8] == PostalCodeOpen && ps[9] == Text(Get(parts, "postal_code")) && ps[10] == "</span> " &&
      ps[11] == LocalityOpen && ps[12] == Text(Get(parts, "city")) && ps[13] == "</span>"
  {
    PostalPiecesShape(Text(Get(parts, "recipient")), StreetLine(parts, true),
                      Text(Get(parts, "postal_code")), Text(Get(parts, "city")));
  }

  /** `toHtml()`. */
  function AddressHtml(parts: PartMap, postal: bool): string {
    Concat(HtmlPieces(parts, postal))
  }

  /** Piece `k` of a list, preceded by element tag `open`, sits between the
      pieces before it and those after it. */
  lemma TaggedPiece(ps: seq<string>, k: nat, open: string, x: string)
    requires 0 < k < |ps| && ps[k - 1] == open && ps[k] == x
    ensures ps[k - 1] == open && Concat(ps) == Concat(ps[..k]) + x + Concat(ps[k + 1..])
  {
    ConcatSplit(ps, k);
  }

  /** The compact HTML carries the two lines of the compact text, the
      street line and the city, each in its own microformat element. */
  lemma CompactHtmlCarriesText(parts: PartMap)
    ensures var ps := HtmlPieces(parts, false);
      AddressText(parts, false) == StreetLine(parts, false) + "\n" + Text(Get(parts, "city")) &&
      ps[1] == StreetOpen && ps[3] == "</span><br>\n" && ps[4] == LocalityOpen && ps[6] == "</span>\n" &&
      AddressHtml(parts, false) == Concat(ps[..2]) + StreetLine(parts, false) + Concat(ps[3..]) &&
      AddressHtml(parts, false) == Concat(ps[..5]) + Text(Get(parts, "city")) + Concat(ps[6..])
  {
    var street, city := StreetLine(parts, false), Text(Get(parts, "city"));
    var ps := CompactPieces(street, city);
    CompactPiecesShape(street, city);
    TaggedPiece(ps, 2, StreetOpen, street);
    TaggedPiece(ps, 5, LocalityOpen, city);
  }

  /** The postal-mail HTML carries the recipient, the postal-mail street
      line, the postal code and the city, each in its own microformat
      element (one lemma per component). */
  lemma PostalHtmlCarriesRecipient(parts: PartMap)
    ensures var ps := HtmlPieces(parts, true);
      ps[1] == NameOpen && ps[3] == "</p>" &&
      AddressHtml(parts, true) == Concat(ps[..2]) + Text(Get(parts, "recipient")) + Concat(ps[3..])
  {
    PostalHtmlPieces(parts);
    TaggedPiece(HtmlPieces(parts, true), 2, NameOpen, Text(Get(parts, "recipient")));
  }

  lemma PostalHtmlCarriesStreet(parts: PartMap)
    ensures var ps := HtmlPieces(parts, true);
      ps[5] == StreetOpen && ps[7] == "</span><br>" &&
      AddressHtml(parts, true) == Concat(ps[..6]) + StreetLine(parts, true) + Concat(ps[7..])
  {
    PostalHtmlPieces(parts);
    TaggedPiece(HtmlPieces(parts, true), 6, StreetOpen, StreetLine(parts, true));
  }

  lemma PostalHtmlCarriesPostalCode(parts: PartMap)
    ensures var ps := HtmlPieces(parts, true);
      ps[8] == PostalCodeOpen && ps[10] == "</span> " &&
      AddressHtml(parts, true) == Concat(ps[..9]) + Text(Get(parts, "postal_code")) + Concat(ps[10..])
  {
    PostalHtmlPieces(parts);
    TaggedPiece(HtmlPieces(parts, true), 9, PostalCodeOpen, Text(Get(parts, "postal_code")));
  }

  lemma PostalHtmlCarriesCity(parts: PartMap)
    ensures var ps := HtmlPieces(parts, true);
      ps[11] == LocalityOpen && ps[13] == "</span>" &&
      AddressHtml(parts, true) == Concat(ps[..12]) + Text(Get(parts, "city")) + Concat(ps[13..])
  {
    PostalHtmlPieces(parts);
    TaggedPiece(HtmlPieces(parts, true), 12, LocalityOpen, Text(Get(parts, "city")));
  }

  /** The street line is the capitalised street, then the number when it is
      truthy; the postal-mail line adds " bte <letter box>" when there is one. */
  lemma StreetLineModes(parts: PartMap)
    ensures StartsWith(StreetLine(parts, false), UcFirst(Text(Get(parts, "street"))))
    ensures !Empty(Get(parts, "street_number")) ==>
      StreetLine(parts, false) == UcFirst(Text(Get(parts, "street"))) + " " + Text(Get(parts, "street_number"))
    ensures Empty(Get(parts, "street_number")) ==> StreetLine(parts, false) == UcFirst(Text(Get(parts, "street")))
    ensures StreetLine(parts, true) ==
      StreetLine(parts, false) + (if Empty(Get(parts, "letter_box")) then "" else " bte " + Text(Get(parts, "letter_box")))
  {
    var line := StreetLine(parts, false);
    var head := UcFirst(Text(Get(parts, "street")));
    assert line[..|head|] == head;
  }

  /** The compact rendering ignores recipient, letter box and postal code. */
  lemma CompactIgnoresPostalParts(p1: PartMap, p2: PartMap)
    requires Get(p1, "street") == Get(p2, "street")
    requires Get(p1, "street_number") == Get(p2, "street_number")
    requires Get(p1, "city") == Get(p2, "city")
    ensures AddressText(p1, false) == AddressText(p2, false)
    ensures AddressHtml(p1, false) == AddressHtml(p2, false)
  {
    assert HtmlPieces(p1, false) == HtmlPieces(p2, false);
  }

  /** For a valid address the two renderings differ: the postal-mail text
      is at least six characters longer. */
  lemma PostalRenderingDiffers(parts: PartMap)
    requires CheckAddress(parts) == None
    ensures |AddressText(parts, true)| >= |AddressText(parts, false)| + 6
  {
    AddressValidIff(parts);
    StreetLineModes(parts);
    assert |Text(Get(parts, "postal_code"))| >= 4;
  }

  // ---------------------------------------------------------------------
  // Objects

  /** The `stdClass` holding the components; copies of an address made with
      PHP's shallow `clone` share it. */
  class Components {
    var m: PartMap

    constructor (m: PartMap)
      ensures this.m == m
    {
      this.m := m;
    }
  }

  /** A place where a partner welcomes customers. */
  class Location {
    /** The denormalised `city_cache` column. */
    var cityCache: Value
    /** What the location's own `hasCurrencyExchange()` reports. */
    var currencyExchange: bool
    var postalAddress: PostalAddress?

    constructor (currencyExchange: bool)
      ensures this.currencyExchange == currencyExchange
      ensures cityCache == Null && postalAddress == null
    {
      this.currencyExchange := currencyExchange;
      cityCache := Null;
      postalAddress := null;
    }
  }

  class PostalAddress {
    var parts: Components
    var usePostalFormat: bool
    var envelope: Envelope
    /** The `contactable_type` tag and, when the owner is a location, the location. */
    var contactableType: string
    var contactable: Location?

    function State(): AddressState
      reads this, parts
    {
      AddressState(parts.m, envelope)
    }

    constructor (parts: Components)
      ensures this.parts == parts && !usePostalFormat && envelope == NewEnvelope
      ensures contactableType == "" && contactable == null
    {
      this.parts := parts;
      usePostalFormat := false;
      envelope := NewEnvelope;
      contactableType := "";
      contactable := null;
    }

    /** `PostalAddress::fromArray($parts)`: validates the components and
      only then keeps them; a rejected array yields no address. */
    static method FromArray(kvs: Assoc) returns (address: PostalAddress?, err: Option<AddressError>)
      ensures err == CheckAddress(ToMap(kvs))
      ensures address != null <==> err.None?
      ensures address != null ==> fresh(address) && fresh(address.parts) && address.parts.m == ToMap(kvs)
      ensures address != null ==> !address.usePostalFormat && address.envelope == NewEnvelope
      ensures address != null ==> address.contactable == null && address.contactableType == ""
    {
      var parts := ToMap(kvs);
      err := ValidateAddress(parts);
      if err.Some? {
        return null, err;
      }
      var components := new Components(parts);
      address := new PostalAddress(components);
    }

    /** `__set($name, $value)`. */
    method Set(name: string, v: Value) returns (err: Option<AddressError>)
      modifies this, parts
      ensures parts == old(parts) && usePostalFormat == old(usePostalFormat)
      ensures contactableType == old(contactableType) && contactable == old(contactable)
      ensures (State(), err) == Write(old(State()), name, v)
    {
      if name in WritableNames {
        parts.m := parts.m[Snake(name) := v];
        err := ValidateAddress(parts.m);
      } else {
        envelope := EnvelopeWrite(envelope, name, v);
        err := None;
      }
    }

    /** `modify($parts)`: returns the same instance. */
    method Modify(kvs: Assoc) returns (self: PostalAddress, err: Option<AddressError>)
      modifies this, parts
      ensures self == this
      ensures parts == old(parts) && usePostalFormat == old(usePostalFormat)
      ensures contactableType == old(contactableType) && contactable == old(contactable)
      ensures (State(), err) == ModifyAll(old(State()), kvs)
    {
      self := this;
      var i := 0;
      while i < |kvs|
        invariant 0 <= i <= |kvs|
        invariant parts == old(parts) && usePostalFormat == old(usePostalFormat)
        invariant contactableType == old(contactableType) && contactable == old(contactable)
        invariant ModifyAll(old(State()), kvs) == ModifyAll(State(), kvs[i..])
      {
        assert kvs[i..][1..] == kvs[i + 1..];
        err := Set(kvs[i].0, kvs[i].1);
        if err.Some? {
          return;
        }
        i := i + 1;
      }
      err := None;
    }

    /** `__get($name)`: components by their camelCase names, the rest from
      the envelope. */
    function Read(name: string): Value
      reads this, parts
    {
      ReadName(State(), name)
    }

    function ToString(): string
      reads this, parts
    {
      AddressText(parts.m, usePostalFormat)
    }

    function ToHtml(): string
      reads this, parts
    {
      AddressHtml(parts.m, usePostalFormat)
    }

    /** `asPostalMail()`: a shallow clone switched to postal-mail format. The
      clone shares the components object with the original. */
    method AsPostalMail() returns (copy: PostalAddress)
      ensures fresh(copy) && copy != this
      ensures copy.usePostalFormat
      ensures copy.parts == parts && copy.envelope == envelope
      ensures copy.contactableType == contactableType && copy.contactable == contactable
    {
      copy := new PostalAddress(parts);
      copy.envelope := envelope;
      copy.contactableType := contactableType;
      copy.contactable := contactable;
      copy.usePostalFormat := true;
    }

    /** `hasGeoCoordinates()`. */
    function HasGeoCoordinates(): (r: bool)
      reads this, parts
      ensures r <==> Get(parts.m, "latitude") != Null && Get(parts.m, "longitude") != Null
    {
      ReadComponent("latitude");
      ReadComponent("longitude");
      Read("latitude") != Null && Read("longitude") != Null
    }

    /** The coordinates read from their own keys. */
    lemma ReadComponent(name: string)
      requires name == "latitude" || name == "longitude"
      ensures Read(name) == Get(parts.m, name)
    {
      GeoNameKey(name);
    }

    /** The `saving` hook: an address owned by a location copies its city
      into that location's `city_cache`. */
    method Saving()
      modifies contactable
      ensures contactable != null && contactableType == LocationClass ==> contactable.cityCache == Read("city")
      ensures contactable != null ==>
        contactable.currencyExchange == old(contactable.currencyExchange) &&
        contactable.postalAddress == old(contactable.postalAddress)
      ensures contactable != null && contactableType != LocationClass ==> unchanged(contactable)
    {
      if contactable != null && contactableType == LocationClass {
        contactable.cityCache := Read("city");
      }
    }
  }
}

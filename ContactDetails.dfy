/** The envelope every contact detail shares (the `ContactDetails` base
    class): a label, a visibility flag and the other attributes of the
    persisted record. */
module ContactDetails {
  import opened Php

  datatype Envelope = Envelope(labelText: string, isPublic: bool, attributes: map<string, Value>)

  /** A contact detail fresh from a factory: no label, private. */
  const NewEnvelope := Envelope("", false, map[])

  /** A write by name that no variant claims, handed to the base class:
      `label` and `isPublic` set the envelope's own fields, any other name
      becomes an attribute of the record. */
  function EnvelopeWrite(e: Envelope, name: string, v: Value): (r: Envelope)
    ensures name != "label" ==> r.labelText == e.labelText
    ensures name != "isPublic" ==> r.isPublic == e.isPublic
    ensures name == "label" || name == "isPublic" ==> r.attributes == e.attributes
    ensures name != "label" && name != "isPublic" ==> r.attributes == e.attributes[name := v]
    ensures name == "label" ==> r.labelText == Text(v)
    ensures name == "isPublic" ==> r.isPublic == !Empty(v)
  {
    if name == "label" then e.(labelText := Text(v))
    else if name == "isPublic" then e.(isPublic := !Empty(v))
    else e.(attributes := e.attributes[name := v])
  }

  /** A read by name that no variant claims; an unknown name reads as null. */
  function EnvelopeRead(e: Envelope, name: string): (v: Value)
    ensures name == "label" ==> v == Str(e.labelText)
    ensures name == "isPublic" ==> v == Bool(e.isPublic)
    ensures name != "label" && name != "isPublic" && name in e.attributes ==> v == e.attributes[name]
    ensures name != "label" && name != "isPublic" && name !in e.attributes ==> v == Null
  {
    if name == "label" then Str(e.labelText)
    else if name == "isPublic" then Bool(e.isPublic)
    else if name in e.attributes then e.attributes[name]
    else Null
  }

  /** A phone number or an e-mail address with its envelope. */
  datatype ContactEntry = ContactEntry(value: string, envelope: Envelope)
}

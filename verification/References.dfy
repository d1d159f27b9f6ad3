/** `<address>@<revision>` (crates/flotilla-address/src/reference.rs). */
module References {
  import opened Outcomes
  import opened Text
  import opened Errors
  import opened Encoding
  import opened Addresses
  import opened Containment

  datatype Reference = Reference(address: Address, revision: string)

  function NewRevision(revision: string): Result<string, Error> {
    if revision == "" then Err(EmptyRevision) else Ok(revision)
  }

  function Print(reference: Reference): string {
    reference.address.text + "@" + Encode(reference.revision)
  }

  function ParseReference(lower: string -> string, text: string): Result<Reference, Error> {
    match SplitOnce(text, '@')
    case None => Err(MissingRevision(text))
    case Some((before, after)) =>
      var address :- Parse(lower, before);
      var decoded :- DecodeCanonical(after);
      var revision :- NewRevision(decoded);
      Ok(Reference(address, revision))
  }

  /** `@` is never bare in an address, so the split finds the revision, whatever either part holds. */
  lemma ParseOfPrintedReference(lower: string -> string, reference: Reference)
    requires Finished(lower, reference.address) && reference.revision != ""
    ensures ParseReference(lower, Print(reference)) == Ok(reference)
  {
    TextIsAscii(lower, reference.address);
    SplitOnceOf(reference.address.text, '@', Encode(reference.revision));
    ParseOfPrint(lower, reference.address);
    DecodeOfEncode(reference.revision);
  }

  lemma PrintOfParsedReference(lower: string -> string, text: string)
    ensures ParseReference(lower, text).Ok? ==>
              var reference := ParseReference(lower, text).value;
              Print(reference) == text && Finished(lower, reference.address) && reference.revision != ""
  {
    if ParseReference(lower, text).Ok? {
      var (before, after) := SplitOnce(text, '@').value;
      PrintOfParse(lower, before);
      EncodeOfDecode(after);
    }
  }
}

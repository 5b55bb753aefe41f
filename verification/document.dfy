/** `tsumekusa/publishing/Document.js`: a container with a version identifier
    and a date. The construction-time "now" is a parameter; the container part
    (`Container.js`) is not part of this model beyond caption and file name. */
module Documents {
  import opened Wrappers
  import opened JsStrings

  /** A date object, by its time value. */
  datatype Date = Date(timeValue: int)

  const NoVersion: string := "n/a"

  datatype Document = Document(caption: string, filename: string, version: Option<string>, date: Date)

  /** `new Document(caption, filename, opt_version, opt_date)`: the version is
      stored exactly as passed; an absent date becomes `now` (a date object is
      always truthy, so a given date is kept). */
  function NewDocument(caption: string, filename: string, optVersion: Option<string>,
                       optDate: Option<Date>, now: Date): (d: Document)
    ensures d.version == optVersion
    ensures optDate.Some? ==> GetDate(d) == optDate.value
    ensures optDate.None? ==> GetDate(d) == now
  {
    Document(caption, filename, optVersion, optDate.GetOr(now))
  }

  function GetDate(d: Document): Date {
    d.date
  }

  /** `getVersion()`: `this.version_ || 'n/a'`. */
  function GetVersion(d: Document): (v: string)
    ensures Truthy(d.version) ==> v == d.version.value
    ensures !Truthy(d.version) ==> v == NoVersion
  {
    StringOr(d.version, NoVersion)
  }

  /** An empty version string is reported as `n/a`, like a missing one; any
      other version is reported as given. */
  lemma VersionDefaults(caption: string, filename: string, v: string, now: Date)
    ensures GetVersion(NewDocument(caption, filename, Some(""), None, now)) == NoVersion
    ensures GetVersion(NewDocument(caption, filename, None, None, now)) == NoVersion
    ensures v != "" ==> GetVersion(NewDocument(caption, filename, Some(v), None, now)) == v
  {
  }
}

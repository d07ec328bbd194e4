/**
 * The catalog's entities. An entry completed by an address line with no
 * `#EXTINF` line before it has no name, logo or group at all (the pending
 * accumulator was the empty object), which `meta == None` records.
 */
module Catalog {
  import opened Wrappers

  /** The three content kinds, the keys `tv`, `movies` and `series`. */
  datatype Kind = Tv | Movies | Series

  /** What an `#EXTINF` line contributes: display name, logo and group. */
  datatype Meta = Meta(name: string, logo: string, group: string)

  /** A playlist item as the parser completes it, before classification. */
  datatype RawEntry = RawEntry(meta: Option<Meta>, url: string)

  /** A catalog item; `baseName` is attached to `tv` items only. */
  datatype Entry = Entry(meta: Option<Meta>, url: string, baseName: Option<string>)

  /** The name where JavaScript treats a missing one like the empty string (`!name`). */
  function NameOr(meta: Option<Meta>): string {
    if meta.Some? then meta.value.name else ""
  }

  /** The stored group; a missing one reads as the empty string. */
  function GroupOr(meta: Option<Meta>): string {
    if meta.Some? then meta.value.group else ""
  }

  function NameOf(e: Entry): string {
    NameOr(e.meta)
  }

  function GroupOf(e: Entry): string {
    GroupOr(e.meta)
  }

  /** `item.url`, the key of the address-based dedups. */
  function UrlOf(e: Entry): string {
    e.url
  }

  /** The entry carries the name that the series code reads without a guard. */
  predicate IsNamed(e: Entry) {
    e.meta.Some?
  }
}

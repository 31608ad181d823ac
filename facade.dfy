/** The plain-data view of an unlocked vault that the archive facade hands to the app:
    a flat list of groups (each naming its parent by id, the root being "0") and a flat
    list of entries, each with a list of fields. */
module Facade {
  import opened Wrappers

  /** A vault group; `attributes` holds the group's attributes (among them its role). */
  datatype Group = Group(id: string, parentID: string, attributes: map<string, string>)

  /** An entry field is either a property (title, username, an OTP URI, ...) or an attribute
      (metadata such as the type of another property). */
  datatype PropertyType = Property | Attribute

  /** An entry field; `title` is the optional display title (absent or empty means unset). */
  datatype EntryField = EntryField(propertyType: PropertyType, property: string, value: string, title: Option<string>)

  datatype Entry = Entry(id: string, parentID: string, fields: seq<EntryField>)

  /** The facade of one archive: its groups and entries, in the facade's order. */
  datatype ArchiveFacade = ArchiveFacade(groups: seq<Group>, entries: seq<Entry>)

  /** An unlocked source with the facade of its archive. */
  datatype UnlockedSource = UnlockedSource(name: string, id: string, order: int, archive: ArchiveFacade)
}

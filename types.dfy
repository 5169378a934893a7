/** The records the extension stores and edits: a header to inject and the
    profile that carries a URL pattern and an ordered list of such headers. */
module Types {

  /** One header row of a profile. `id` is a handle for the editor only. */
  datatype Header = Header(id: string, name: string, value: string)

  /** A profile: its headers are injected into requests whose URL matches
      `urlRegex` (an opaque pattern string here) while it is enabled. */
  datatype Profile = Profile(
    id: string,
    name: string,
    urlRegex: string,
    headers: seq<Header>,
    enabled: bool)

  /** What the store persists: the ordered profile list. */
  datatype ProfileState = ProfileState(profiles: seq<Profile>)
}

/** User accounts as far as the favorites feature sees them. */
module Accounts {
  import opened Base

  /** A user document. The password hash is left out: no operation of this
      model reads it. `favorites` holds product ids in the order they were
      added. */
  datatype User = User(name: string, email: string, favorites: seq<Id>)

  /** The users collection, keyed by user id. */
  type Users = map<Id, User>
}

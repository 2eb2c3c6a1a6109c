/** The Stores table: its row and the constraints the schema declares on each column. */
module StoreModel {
  import opened Wrappers
  import Text

  /** A row of the Stores table; `ownerId` is the nullable reference to the owning user. */
  datatype StoreRow = StoreRow(
    id: int,
    name: string,
    email: Option<string>,
    address: Option<string>,
    ownerId: Option<int>)

  /**
   * `STRING(200)`, not null, `notEmpty`. Sequelize's `notEmpty` refuses a string
   * made only of white space, not just the empty string.
   */
  predicate StoreNameOk(name: string) {
    (exists i | 0 <= i < |name| :: !Text.IsSpace(name[i])) && |name| <= 200
  }

  /** `STRING(120)`, nullable; when present, `isEmail`. */
  predicate StoreEmailOk(email: Option<string>, isEmail: string -> bool) {
    email.None? || (isEmail(email.value) && |email.value| <= 120)
  }

  /** `STRING(400)`, nullable. */
  predicate StoreAddressOk(address: Option<string>) {
    address.None? || |address.value| <= 400
  }

  predicate StoreFieldsOk(name: string, email: Option<string>, address: Option<string>, isEmail: string -> bool) {
    StoreNameOk(name) && StoreEmailOk(email, isEmail) && StoreAddressOk(address)
  }

  /** A valid store name is never empty, and a blank one is refused. */
  lemma StoreNameNotBlank(name: string)
    ensures StoreNameOk(name) ==> 1 <= |name| <= 200
    ensures (forall i | 0 <= i < |name| :: Text.IsSpace(name[i])) ==> !StoreNameOk(name)
  {
  }

  /**
   * The Stores table as a whole: every row meets the column constraints, and
   * ids are unique, positive and below the next value of the id sequence.
   */
  ghost predicate StoresValid(stores: seq<StoreRow>, isEmail: string -> bool, nextId: int) {
    && 1 <= nextId
    && (forall i :: 0 <= i < |stores| ==>
          StoreFieldsOk(stores[i].name, stores[i].email, stores[i].address, isEmail)
          && 1 <= stores[i].id < nextId)
    && (forall i, j :: 0 <= i < j < |stores| ==> stores[i].id != stores[j].id)
  }

  predicate StoreExists(stores: seq<StoreRow>, id: int) {
    exists s :: s in stores && s.id == id
  }
}

/** The record shapes shared between the resource locator and the bookmark
    list. */
module Types {

  /** A community resource as returned by the resource finder. */
  datatype Resource = Resource(
    name: string,
    description: string,
    address: string,
    contact: string,
    eligibility: string)

  /** The three progress states a bookmark can be in. */
  datatype Status = NotStarted | InProgress | Completed

  /** A resource's own fields spread into a bookmark, plus the derived
      identifier and the progress status. */
  datatype Bookmark = Bookmark(
    name: string,
    description: string,
    address: string,
    contact: string,
    eligibility: string,
    id: string,
    status: Status)
  {
    /** The resource fields this bookmark was made from. */
    function ResourceOf(): Resource {
      Resource(name, description, address, contact, eligibility)
    }
  }
}

/** The calls a service makes on its collaborators, in the order made. */
module Calls {
  import opened Int64Text
  import opened Models

  datatype Call =
    | CacheExists(id: Int64)
    | CacheSet(id: Int64)
    | RepoGetAccount(id: Int64)
    | RepoCreateAccount(id: Int64)
    | RepoGetAll
    | RepoTransfer(request: TransferRequest)
}

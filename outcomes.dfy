/**
 * Option, Result and the domain errors that the repository methods raise.
 * Each error corresponds to one `HTTPException` (or one unhandled database
 * exception) of the repository classes; `HttpStatus` gives its status code.
 */
module Outcomes {

  datatype Option<+T> = None | Some(value: T)

  datatype Result<+T, +E> = Ok(value: T) | Err(error: E)

  datatype Error =
    /** get/update/delete of a product id that is not stored */
    | ProductNotFound
    /** get/update_status of an order id that is not stored */
    | OrderNotFound
    /** add_order: no product carries the requested name */
    | UnknownProduct(name: string)
    /** add_order: the product holds `available` units, fewer than requested */
    | InsufficientStock(name: string, available: int)
    /** add_product: the unique constraint on the product name was violated */
    | DuplicateName
    /** a database error the repository does not catch (the request fails, nothing is committed) */
    | StorageError

  /** The HTTP status code the error reaches the client with. */
  function HttpStatus(e: Error): (code: int)
    ensures code == 404 <==> e.ProductNotFound? || e.OrderNotFound? || e.UnknownProduct?
    ensures code == 400 <==> e.InsufficientStock? || e.DuplicateName?
    ensures code == 500 <==> e.StorageError?
  {
    match e
    case ProductNotFound => 404
    case OrderNotFound => 404
    case UnknownProduct(_) => 404
    case InsufficientStock(_, _) => 400
    case DuplicateName => 400
    case StorageError => 500
  }
}

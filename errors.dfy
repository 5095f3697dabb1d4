/** The error classes the services throw (lib/AppError.ts) and the Prisma enums they use. */
module AppErrors {

  /** `BadRequestError`, `NotFoundError` and `CONFLICT_ERROR` of the services; `Internal`
      stands for any other exception, which the error handler answers with status 500. */
  datatype AppError = BadRequest | NotFound | Conflict | Internal

  /** `DomainVerificationStatus` as generated by Prisma. */
  datatype VerificationStatus = Pending | Verified | Failed

  /** The HTTP methods an API registration may name. */
  datatype HttpMethod = GET | POST | PUT | DELETE | PATCH
}

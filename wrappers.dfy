/** Option and result types shared by every module, and the HTTP exception
    kinds the services raise (NestJS NotFoundException, ForbiddenException, ...). */
module Wrappers {

  datatype Option<+T> = None | Some(value: T)

  /** The exception classes thrown by the services. */
  datatype Error =
    | NotFound      // NotFoundException (and Prisma's "record to update/delete not found")
    | Forbidden     // ForbiddenException
    | BadRequest    // BadRequestException
    | Unauthorized  // UnauthorizedException
    | Conflict      // ConflictException

  /** A call either returns a value or throws one of the exceptions above. */
  datatype Result<+T> = Ok(value: T) | Err(error: Error)

  /** A check that either passes or throws. */
  datatype Outcome = Pass | Fail(error: Error)

  /** JavaScript truthiness of an optional string: `null`, `undefined` and `""` are falsy. */
  predicate Truthy(p: Option<string>) {
    p.Some? && p.value != ""
  }

  /** `s.startsWith(prefix)` */
  predicate StartsWith(s: string, prefix: string) {
    |prefix| <= |s| && s[..|prefix|] == prefix
  }

  /** `s.endsWith(suffix)` */
  predicate EndsWith(s: string, suffix: string) {
    |suffix| <= |s| && s[|s| - |suffix|..] == suffix
  }
}

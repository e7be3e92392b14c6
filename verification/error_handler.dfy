/** The global exception handler: every failure a service reports becomes a
    structured error response whose status is fixed by the kind of failure. */
module ErrorHandler {
  import opened Errors

  /** `ErrorResponse` without its timestamp. */
  datatype ErrorResponse = ErrorResponse(status: int, error: string, message: string)

  const StatusBadRequest := 400
  const StatusUnauthorized := 401
  const StatusForbidden := 403
  const StatusNotFound := 404
  const StatusConflict := 409
  const StatusInternal := 500

  const MsgUnauthorizedFixed := "Credenciales inválidas o token expirado"
  const MsgInternalFixed := "Ocurrió un error inesperado. Por favor, inténtalo de nuevo más tarde."

  /** The text the failure carries. */
  function Detail(e: Error): string {
    match e
    case NotFound(resource) => resource
    case BadRequest(m) => m
    case Conflict(m) => m
    case Forbidden(m) => m
    case Unauthorized(m) => m
    case Internal(m) => m
  }

  /** The two failures whose own text is never shown to the caller. */
  predicate Hidden(e: Error) {
    e.Unauthorized? || e.Internal?
  }

  /** Two failures of the same kind, whatever their text. */
  predicate SameKind(a: Error, b: Error) {
    match a
    case NotFound(_) => b.NotFound?
    case BadRequest(_) => b.BadRequest?
    case Conflict(_) => b.Conflict?
    case Forbidden(_) => b.Forbidden?
    case Unauthorized(_) => b.Unauthorized?
    case Internal(_) => b.Internal?
  }

  /** The handler chosen for each exception type. */
  function Handle(e: Error): (r: ErrorResponse)
    ensures r.status in {StatusBadRequest, StatusUnauthorized, StatusForbidden, StatusNotFound, StatusConflict, StatusInternal}
    ensures (r.status == StatusInternal) <==> e.Internal?
    ensures (400 <= r.status < 500) <==> !e.Internal?
    ensures !Hidden(e) ==> r.message == Detail(e)
    ensures e.Unauthorized? ==> r.message == MsgUnauthorizedFixed
    ensures e.Internal? ==> r.message == MsgInternalFixed
  {
    match e
    case NotFound(_) => ErrorResponse(StatusNotFound, "Recurso no encontrado", Detail(e))
    case BadRequest(_) => ErrorResponse(StatusBadRequest, "Petición inválida", Detail(e))
    case Unauthorized(_) => ErrorResponse(StatusUnauthorized, "No autorizado", MsgUnauthorizedFixed)
    case Forbidden(_) => ErrorResponse(StatusForbidden, "Acceso prohibido", Detail(e))
    case Conflict(_) => ErrorResponse(StatusConflict, "Conflicto", Detail(e))
    case Internal(_) => ErrorResponse(StatusInternal, "Error interno del servidor", MsgInternalFixed)
  }

  /** The status alone tells the client which kind of failure occurred. */
  lemma StatusDeterminesKind(a: Error, b: Error)
    ensures Handle(a).status == Handle(b).status <==> SameKind(a, b)
  {
  }

  /** A response reveals nothing of a hidden failure's text: two such
      failures of one kind give identical responses. */
  lemma HiddenTextNotRevealed(a: Error, b: Error)
    requires Hidden(a) && SameKind(a, b)
    ensures Handle(a) == Handle(b)
  {
  }

  /** For the other kinds the response carries the failure back: handling is
      injective on them. */
  lemma VisibleFailuresDistinguished(a: Error, b: Error)
    requires !Hidden(a) && !Hidden(b)
    ensures Handle(a) == Handle(b) ==> a == b
  {
  }
}

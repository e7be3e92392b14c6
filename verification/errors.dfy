/** The exceptions the services throw, by the HTTP status the global handler
    gives them. */
module Errors {

  datatype Error =
    /** `ResourceNotFoundException(resource, field, value)`. */
    | NotFound(resource: string)
    /** `BadRequestException`. */
    | BadRequest(message: string)
    /** `ConflictException`. */
    | Conflict(message: string)
    /** `ForbiddenException` or a 403 response built by a controller. */
    | Forbidden(message: string)
    /** `UnauthorizedException`, `BadCredentialsException`. */
    | Unauthorized(message: string)
    /** Any other exception: a failed `valueOf`, a broken unique constraint,
        a `null` dereference, or a `@PreAuthorize` refusal that no URL rule
        caught first. */
    | Internal(message: string)

  const MsgNotClient := "El usuario especificado no es un cliente"
  const MsgNotStylist := "El usuario especificado no es un estilista"
  const MsgEndNotAfterStart := "La hora de fin debe ser posterior a la hora de inicio"
  const MsgCreateInPast := "No se pueden crear citas en el pasado"
  const MsgUpdateInPast := "No se pueden actualizar citas a fechas u horas en el pasado"
  const MsgPriceRequired := "Debe proporcionarse un precio total o una lista de servicios"
  const MsgUnavailableDate := "El estilista no está disponible en esta fecha"
  const MsgUnavailableSlot := "El estilista no está disponible en este horario"
  const MsgNoAvailabilityPrefix := "El estilista no tiene disponibilidad configurada para los "
  const MsgOutsideAvailability := "La cita está fuera del horario disponible del estilista"
  const MsgSlotTaken := "Ya existe una cita en este horario para el estilista"
  const MsgAvailabilityExists := "Ya existe una disponibilidad para este día de la semana"
  const MsgEmailRequired := "El email es obligatorio"
  const MsgEmailTaken := "El email ya está registrado"
  const MsgUsernameTaken := "El username ya está registrado"
  const MsgEmailOtherAccount := "El email ya está registrado con otro tipo de cuenta"
  const MsgBadCredentials := "Credenciales inválidas"
  const MsgInactive := "Usuario inactivo"
  const MsgAuthFailed := "Error al autenticar"
  /** Spring's `AccessDeniedException` message. */
  const MsgAccessDenied := "Access Denied"
  /** The message of the `NullPointerException` thrown by `toString()` on
      a JSON `null` read from a request map. */
  const MsgNullDereference := "Cannot invoke \"Object.toString()\" because the return value of \"java.util.Map.get(Object)\" is null"
}

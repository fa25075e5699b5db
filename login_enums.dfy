/**
 * The three status enums of the login protocol with their declared wire
 * values. Each has a catch-all `Undefined` variant, marked as the value a
 * read produces for a number outside the declared set. `Undefined` is a
 * unit variant with a fixed number of its own, so an unknown raw value is not
 * kept: it is written back as that fixed number.
 */
module LoginEnums {
  import opened Bytes

  /** Ship status, carried as a u16. */
  datatype ShipStatus = Unknown | Online | Busy | Full | Offline | Undefined {

    /** The declared discriminant: 0 to 4 for the named states, 0xFFFF for `Undefined` alone. */
    function Value(): (r: u16)
      ensures r <= 4 || r == 0xFFFF
      ensures r == 0xFFFF <==> Undefined?
    {
      match this
      case Unknown => 0
      case Online => 1
      case Busy => 2
      case Full => 3
      case Offline => 4
      case Undefined => 0xFFFF
    }
  }

  function ShipStatusFromValue(x: u16): (r: ShipStatus)
    ensures x <= 4 || x == 0xFFFF <==> r.Value() == x
    ensures r == ShipStatus.Undefined <==> 4 < x
  {
    match x
    case 0 => Unknown
    case 1 => Online
    case 2 => Busy
    case 3 => Full
    case 4 => Offline
    case _ => ShipStatus.Undefined
  }

  /** Result of a login attempt, carried as a u32. */
  datatype LoginResult =
    | Successful | EmailConfirmed | LoginError | EmailAuthError
    | AuthEmailSent | OTPError | InMaintenance | GenericError | Undefined
  {
    /** The declared discriminant: 0 to 7 for the named results, 0xFFFF_FFFF for `Undefined` alone. */
    function Value(): (r: u32)
      ensures r <= 7 || r == 0xFFFF_FFFF
      ensures r == 0xFFFF_FFFF <==> Undefined?
    {
      match this
      case Successful => 0
      case EmailConfirmed => 1
      case LoginError => 2
      case EmailAuthError => 3
      case AuthEmailSent => 4
      case OTPError => 5
      case InMaintenance => 6
      case GenericError => 7
      case Undefined => 0xFFFF_FFFF
    }
  }

  function LoginResultFromValue(x: u32): (r: LoginResult)
    ensures x <= 7 || x == 0xFFFF_FFFF <==> r.Value() == x
    ensures r == LoginResult.Undefined <==> 7 < x
  {
    match x
    case 0 => Successful
    case 1 => EmailConfirmed
    case 2 => LoginError
    case 3 => EmailAuthError
    case 4 => AuthEmailSent
    case 5 => OTPError
    case 6 => InMaintenance
    case 7 => GenericError
    case _ => LoginResult.Undefined
  }

  /** Status of a login response, carried as a u32. */
  datatype LoginStatus = Success | Failure | Undefined {

    /** The declared discriminant: 0 and 1 for the named statuses, 0xFFFF_FFFF for `Undefined` alone. */
    function Value(): (r: u32)
      ensures r <= 1 || r == 0xFFFF_FFFF
      ensures r == 0xFFFF_FFFF <==> Undefined?
    {
      match this
      case Success => 0
      case Failure => 1
      case Undefined => 0xFFFF_FFFF
    }
  }

  function LoginStatusFromValue(x: u32): (r: LoginStatus)
    ensures x <= 1 || x == 0xFFFF_FFFF <==> r.Value() == x
    ensures r == LoginStatus.Undefined <==> 1 < x
  {
    match x
    case 0 => Success
    case 1 => Failure
    case _ => LoginStatus.Undefined
  }

  /** Reading back a written ship status gives the same variant, and distinct variants have distinct wire values. */
  lemma ShipStatusRoundTrip(s: ShipStatus, t: ShipStatus)
    ensures ShipStatusFromValue(s.Value()) == s
    ensures s.Value() == t.Value() ==> s == t
  {
  }

  lemma LoginResultRoundTrip(s: LoginResult, t: LoginResult)
    ensures LoginResultFromValue(s.Value()) == s
    ensures s.Value() == t.Value() ==> s == t
  {
  }

  lemma LoginStatusRoundTrip(s: LoginStatus, t: LoginStatus)
    ensures LoginStatusFromValue(s.Value()) == s
    ensures s.Value() == t.Value() ==> s == t
  {
  }
}

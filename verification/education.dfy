/**
 * The enumerated `education` column of a reader: seven levels, each stored
 * as a one-character code `'0'`..`'6'` and shown with a human-readable label.
 */
module Education {
  import opened Wrappers

  datatype Level =
    | PreElementary
    | Elementary
    | Middle
    | Secondary
    | Professional
    | Bachelor
    | Master

  /** The level a reader gets when the caller leaves `education` out. */
  const DefaultLevel: Level := PreElementary

  /** The stored code of a level. */
  function Code(e: Level): char
  {
    match e
    case PreElementary => '0'
    case Elementary => '1'
    case Middle => '2'
    case Secondary => '3'
    case Professional => '4'
    case Bachelor => '5'
    case Master => '6'
  }

  /** The label shown for a level in forms. */
  function Label(e: Level): string
  {
    match e
    case PreElementary => "pre-elementary"
    case Elementary => "elementary"
    case Middle => "middle"
    case Secondary => "secondary"
    case Professional => "professional"
    case Bachelor => "bachelor"
    case Master => "master"
  }

  /** The seven codes the column accepts, in declaration order. */
  const Codes: string := "0123456"

  /**
   * Decodes a submitted value of the column: it is accepted exactly when it is
   * one of the seven one-character codes.
   */
  function FromCode(s: string): (r: Option<Level>)
    ensures r.Some? <==> |s| == 1 && s[0] in Codes
    ensures r.Some? ==> s == [Code(r.value)]
  {
    if s == "0" then Some(PreElementary)
    else if s == "1" then Some(Elementary)
    else if s == "2" then Some(Middle)
    else if s == "3" then Some(Secondary)
    else if s == "4" then Some(Professional)
    else if s == "5" then Some(Bachelor)
    else if s == "6" then Some(Master)
    else None
  }

  /** Encoding a level and decoding the code gives the level back. */
  lemma CodeRoundTrip(e: Level)
    ensures FromCode([Code(e)]) == Some(e)
    ensures Code(e) in Codes
  {
  }

  /** Distinct levels have distinct codes and distinct labels. */
  lemma CodesAndLabelsDistinct(e1: Level, e2: Level)
    requires e1 != e2
    ensures Code(e1) != Code(e2)
    ensures Label(e1) != Label(e2)
  {
  }

  /** The default level is stored as the code `'0'`. */
  lemma DefaultIsZero()
    ensures Code(DefaultLevel) == '0'
    ensures Label(DefaultLevel) == "pre-elementary"
  {
  }
}

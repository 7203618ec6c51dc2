/** Requests and their wire text (`lib/encode.ex`). */
module Encoder {
  import opened Strings

  /** An argument of a request: a string, an atom or an integer. */
  datatype Arg = Str(s: string) | Atom(name: string) | Num(n: int)

  /** A request: an atom, or a tuple that begins with one. */
  datatype Command =
    | Plain(cmd: string)
    | One(cmd: string, a: Arg)
    | Two(cmd: string, a: Arg, b: Arg)
    | Three(cmd: string, a: Arg, b: Arg, c: Arg)

  /** to_string of an atom: the atom `nil` prints as nothing. */
  function AtomText(name: string): string {
    if name == "nil" then "" else name
  }

  function ToString(arg: Arg): string {
    match arg
    case Str(s) => s
    case Atom(name) => AtomText(name)
    case Num(n) => IntText(n)
  }

  /** The tuples that answer an interactive prompt. */
  const RESPONSES := {
    "CTRL-RSP-IDENTITY", "CTRL-RSP-PASSWORD", "CTRL-RSP-NEW_PASSWORD",
    "CTRL-RSP-PIN", "CTRL-RSP-OTP", "CTRL-RSP-PASSPHRASE"}

  predicate IsHex(c: char) {
    DigitValue(c) < 16
  }

  /** The MAC address pattern matches at index `at`. */
  predicate MacAt(s: string, at: nat) {
    at + 17 <= |s| &&
    forall j :: 0 <= j < 17 ==> if j % 3 == 2 then s[at + j] == ':' else IsHex(s[at + j])
  }

  /** Length 17, and a match of the unanchored pattern somewhere. */
  predicate LooksLikeMac(s: string) {
    |s| == 17 && exists at :: 0 <= at <= |s| && MacAt(s, at)
  }

  function EncodeArg(arg: Arg): string {
    match arg
    case Str(s) => if LooksLikeMac(s) then s else "\"" + s + "\""
    case _ => ToString(arg)
  }

  function Encode(c: Command): string {
    match c
    case Plain(cmd) => AtomText(cmd)
    case One(cmd, a) => AtomText(cmd) + " " + EncodeArg(a)
    case Two(cmd, a, b) =>
      if cmd in RESPONSES then cmd + "-" + ToString(a) + "-" + ToString(b)
      else AtomText(cmd) + " " + EncodeArg(a) + " " + EncodeArg(b)
    case Three(cmd, a, b, c) => AtomText(cmd) + " " + EncodeArg(a) + " " + EncodeArg(b) + " " + EncodeArg(c)
  }
}

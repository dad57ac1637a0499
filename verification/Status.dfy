/** The status bits of a compared path, and their four-character spelling in a file list. */
module Status {

  /** The seven flags of the source's unsigned int. */
  type Status = bv8

  const CREATED: Status := 1
  const DELETED: Status := 2
  const TYPE: Status := 4
  const CONTENT: Status := 8
  const PERMISSIONS: Status := 16
  const USER: Status := 32
  const GROUP: Status := 64

  predicate Has(s: Status, flags: Status) {
    s & flags != 0
  }

  function Flag(on: bool, flag: Status): Status {
    if on then flag else 0
  }

  /** What comparing two existing nodes can yield. */
  function Bits(type_: bool, content: bool, permissions: bool, user: bool, group: bool): (s: Status)
    ensures !Has(s, CREATED | DELETED)
    ensures Has(s, TYPE) == type_ && Has(s, CONTENT) == content && Has(s, PERMISSIONS) == permissions
    ensures Has(s, USER) == user && Has(s, GROUP) == group && Has(s, USER | GROUP) == (user || group)
    ensures Has(s, CONTENT | PERMISSIONS | USER | GROUP) == (content || permissions || user || group)
    ensures s == 0 <==> !(type_ || content || permissions || user || group)
  {
    Flag(type_, TYPE) | Flag(content, CONTENT) | Flag(permissions, PERMISSIONS) | Flag(user, USER) | Flag(group, GROUP)
  }

  /** Reading a comparison in the other direction. */
  function InvertStatus(s: Status): Status {
    if Has(s, CREATED | DELETED) then s ^ (CREATED | DELETED) else s
  }

  /** Inverting twice is the identity unless a status claims both creation and deletion. */
  lemma InvertStatusInvolution(s: Status)
    ensures InvertStatus(InvertStatus(s)) == s <==> !(Has(s, CREATED) && Has(s, DELETED))
  {
  }

  /** Inverting swaps creation and deletion and keeps every other flag. */
  lemma InvertStatusBits(s: Status)
    requires !(Has(s, CREATED) && Has(s, DELETED))
    ensures Has(InvertStatus(s), CREATED) == Has(s, DELETED)
    ensures Has(InvertStatus(s), DELETED) == Has(s, CREATED)
    ensures InvertStatus(s) & 0xFC == s & 0xFC
  {
  }

  function Letter(on: bool, c: char): string {
    if on then [c] else "."
  }

  function StatusToString(s: Status): (str: string)
    ensures |str| == 4 && ' ' !in str && '\n' !in str
  {
    (if Has(s, CREATED) then "+"
     else if Has(s, DELETED) then "-"
     else if Has(s, TYPE) then "t"
     else if Has(s, CONTENT) then "c"
     else ".")
    + Letter(Has(s, PERMISSIONS), 'p') + Letter(Has(s, USER), 'u') + Letter(Has(s, GROUP), 'g')
  }

  function StringToStatus(str: string): Status {
    (if |str| >= 1 then
       match str[0]
       case '+' => CREATED
       case '-' => DELETED
       case 't' => TYPE
       case 'c' => CONTENT
       case _ => 0
     else 0)
    | Flag(|str| >= 2 && str[1] == 'p', PERMISSIONS)
    | Flag(|str| >= 3 && str[2] == 'u', USER)
    | Flag(|str| >= 4 && str[3] == 'g', GROUP)
  }

  /** The letters of each flag; in the first column the first of four takes precedence. */
  lemma LettersWritten(s: Status)
    ensures var str := StatusToString(s);
      && (str[0] == '+' <==> Has(s, CREATED)) && (str[0] == '-' <==> !Has(s, CREATED) && Has(s, DELETED))
      && (str[0] == 't' <==> !Has(s, CREATED | DELETED) && Has(s, TYPE))
      && (str[0] == 'c' <==> !Has(s, CREATED | DELETED | TYPE) && Has(s, CONTENT))
      && (str[0] == '.' <==> !Has(s, CREATED | DELETED | TYPE | CONTENT))
      && str[1] == (if Has(s, PERMISSIONS) then 'p' else '.') && str[2] == (if Has(s, USER) then 'u' else '.')
      && str[3] == (if Has(s, GROUP) then 'g' else '.')
  {
  }

  /** Any string is read letter by letter; what does not belong in its column counts as no flag. */
  lemma LettersRead(str: string)
    ensures var s := StringToStatus(str);
      && (Has(s, CREATED) <==> |str| >= 1 && str[0] == '+') && (Has(s, DELETED) <==> |str| >= 1 && str[0] == '-')
      && (Has(s, TYPE) <==> |str| >= 1 && str[0] == 't') && (Has(s, CONTENT) <==> |str| >= 1 && str[0] == 'c')
      && (Has(s, PERMISSIONS) <==> |str| >= 2 && str[1] == 'p') && (Has(s, USER) <==> |str| >= 3 && str[2] == 'u')
      && (Has(s, GROUP) <==> |str| >= 4 && str[3] == 'g')
  {
  }

  /** At most one of the flags that share the first character. */
  predicate Printable(s: Status) {
    s < 128 && s & 15 in {0, CREATED, DELETED, TYPE, CONTENT}
  }

  /** The spelling loses exactly the statuses that need two letters in the first column. */
  lemma StatusRoundTrip(s: Status)
    ensures StringToStatus(StatusToString(s)) == s <==> Printable(s)
  {
  }

  /** A comparison can only report what a file list can spell: content is not looked at when kinds differ. */
  lemma BitsPrintable(type_: bool, content: bool, permissions: bool, user: bool, group: bool)
    requires !(type_ && content)
    ensures Printable(Bits(type_, content, permissions, user, group))
  {
  }
}

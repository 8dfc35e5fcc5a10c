/** The two automata of the HTTP/1.x parser in src/http.h: characters drive the first, and what the
    first finds out about framing drives the second. */
module HttpTables {
  type Byte = x: int | 0 <= x < 256

  datatype State =
    | ST | MT | MS | TR | TS | VN | RR | RN | HK | HS | HV | HR | HE
    | ER | HN | BD | CS | CB | CE | CR | CN | CD | C1 | C2 | BR

  datatype CharType = SPC | NL | CRET | COLN | TAB | SCOLN | DIGIT | HEX | ALPHA | TCHAR | VCHAR | ETC

  datatype Meta =
    | WFK | ANY | MTE | MCL | CLV | MCK | SML | CHK | BIG | ZER | CSZ
    | CBD | LST | STR | SEN | BDY | END | ERR

  datatype Kind =
    | NoToken | Method | Target | Version | HeaderKey | HeaderVal | ChunkBody | Body
    | BodyStream | ReqEnd | Error

  /** Columns of the framing table; its later rows give the same columns other names. */
  type Event = e: int | 0 <= e < 6
  const NOT_CONTENT_LEN: Event := 0
  const NOT_TRANSFER_ENC: Event := 1
  const END_KEY: Event := 2
  const END_VALUE: Event := 3
  const END_HEADERS: Event := 4
  const LARGE_BODY: Event := 5
  const NOT_CHUNKED: Event := 0
  const NON_ZERO: Event := 0
  const END_CHK_SIZE: Event := 1
  const END_CHUNK: Event := 2
  const NEXT: Event := 0

  const MAX_TOKEN_LENGTH := 8192
  const MAX_REQUEST_BUF_SIZE := 8388608
  const REQUEST_BUF_SIZE := 1024
  const MAX_HEADER_COUNT := 127

  /** hs_ctype, with the bytes that are negative as a char taken as ETC. */
  function TypeOf(c: Byte): CharType {
    if c == 9 then TAB
    else if c == 10 then NL
    else if c == 13 then CRET
    else if c < 32 || c >= 127 then ETC
    else if c == 32 then SPC
    else if 48 <= c <= 57 then DIGIT
    else if c == 58 then COLN
    else if c == 59 then SCOLN
    else if 65 <= c <= 70 || 97 <= c <= 102 then HEX
    else if 71 <= c <= 90 || 103 <= c <= 122 then ALPHA
    else if c == 34 || c == 40 || c == 41 || c == 47 || 60 <= c <= 64 then VCHAR
    else if 91 <= c <= 93 || c == 123 || c == 125 then VCHAR
    else TCHAR
  }

  predicate Word(t: CharType) {
    t == DIGIT || t == HEX || t == ALPHA || t == TCHAR
  }

  /** hs_transitions, one row a state; BR has no row. */
  function Transition(s: State, t: CharType): State
    requires s != BR
  {
    match s
    case ST => if t == HEX || t == ALPHA || t == TCHAR then MT else BR
    case MT => if t == SPC then MS else if Word(t) then MT else BR
    case MS => if Word(t) || t == VCHAR then TR else BR
    case TR => if t == SPC then TS else if Word(t) || t == VCHAR || t == COLN || t == SCOLN then TR else BR
    case TS => if Word(t) || t == VCHAR then VN else BR
    case VN => if t == CRET then RR else if Word(t) || t == VCHAR then VN else BR
    case RR => if t == NL then RN else BR
    case RN => if Word(t) then HK else BR
    case HK => if t == COLN then HS else if Word(t) then HK else BR
    case HS => if t == ETC then BR else if t == SPC || t == NL || t == CRET || t == TAB then HS else HV
    case HV => if t == ETC || t == NL then BR else if t == CRET then HR else HV
    case HR => if t == NL then HE else BR
    case HE => if t == CRET then ER else if Word(t) then HK else BR
    case ER => if t == NL then HN else BR
    case HN => BD
    case BD => BD
    case CS => if t == CRET then CR else if t == SCOLN then CE else if t == DIGIT || t == HEX then CS else BR
    case CB => CB
    case CE => if t == CRET then CR else if t == ETC || t == SPC || t == NL then BR else CE
    case CR => if t == NL then CN else BR
    case CN => CB
    case CD => if t == CRET then C1 else BR
    case C1 => if t == NL then C2 else BR
    case C2 => if t == DIGIT || t == HEX then CS else BR
  }

  function Entry(e: Event, m0: Meta, m1: Meta, m2: Meta, m3: Meta, m4: Meta, m5: Meta): Meta {
    if e == 0 then m0
    else if e == 1 then m1 else if e == 2 then m2 else if e == 3 then m3 else if e == 4 then m4 else m5
  }

  /** hs_meta_transitions; ERR has no row, and stays. */
  function MetaTransition(m: Meta, e: Event): Meta {
    match m
    case WFK => Entry(e, WFK, WFK, WFK, ANY, END, ERR)
    case ANY => Entry(e, MTE, MCL, WFK, ERR, END, ERR)
    case MTE => Entry(e, MTE, WFK, MCK, ERR, ERR, ERR)
    case MCL => Entry(e, WFK, MCL, CLV, ERR, ERR, ERR)
    case CLV => Entry(e, ERR, ERR, ERR, SML, ERR, ERR)
    case MCK => Entry(e, WFK, ERR, ERR, CHK, ERR, ERR)
    case SML => Entry(e, SML, SML, SML, SML, BDY, BIG)
    case CHK => Entry(e, CHK, CHK, CHK, CHK, ZER, ERR)
    case BIG => Entry(e, BIG, BIG, BIG, BIG, STR, ERR)
    case ZER => Entry(e, CSZ, LST, ERR, ERR, ERR, ERR)
    case CSZ => Entry(e, CSZ, CBD, ERR, ERR, ERR, ERR)
    case CBD => Entry(e, CBD, CBD, ZER, ERR, ERR, ERR)
    case LST => Entry(e, LST, END, END, ERR, ERR, ERR)
    case STR => Entry(e, SEN, ERR, ERR, ERR, ERR, ERR)
    case SEN => Entry(e, END, ERR, ERR, ERR, ERR, ERR)
    case BDY => Entry(e, END, ERR, ERR, ERR, ERR, ERR)
    case END => Entry(e, WFK, ERR, ERR, ERR, ERR, ERR)
    case ERR => ERR
  }

  /** hs_token_start_states, with a row for each state but BR. */
  const TOKEN_START_STATES: seq<Kind> :=
    [NoToken, Method, NoToken, Target, NoToken, Version, NoToken, NoToken, HeaderKey,
     NoToken, HeaderVal, NoToken, NoToken, NoToken, NoToken, Body, NoToken, ChunkBody, NoToken, NoToken, NoToken,
     NoToken, NoToken, NoToken]

  /** A state's number. */
  function Row(s: State): nat {
    match s
    case ST => 0 case MT => 1 case MS => 2 case TR => 3 case TS => 4 case VN => 5 case RR => 6 case RN => 7
    case HK => 8 case HS => 9 case HV => 10 case HR => 11 case HE => 12 case ER => 13 case HN => 14 case BD => 15
    case CS => 16 case CB => 17 case CE => 18 case CR => 19 case CN => 20 case CD => 21 case C1 => 22 case C2 => 23
    case BR => 24
  }

  /** What is read from the table at a state. For BR that is past its end; what lies there is taken to be 0. */
  function StartKind(s: State): Kind {
    match s
    case MT => Method
    case TR => Target
    case VN => Version
    case HK => HeaderKey
    case HV => HeaderVal
    case BD => Body
    case CB => ChunkBody
    case BR => NoToken
    case _ => NoToken
  }

  lemma StartKindIsRow(s: State)
    requires s != BR
    ensures Row(s) < |TOKEN_START_STATES| && StartKind(s) == TOKEN_START_STATES[Row(s)]
  {
  }

  function Lower(c: Byte): int {
    if 65 <= c <= 90 then c + 32 else c
  }

  /** "transfer-encoding" */
  const TRANSFER_ENCODING: seq<Byte> := [116, 114, 97, 110, 115, 102, 101, 114, 45, 101, 110, 99, 111, 100, 105, 110,
                                         103]

  /** "content-length" */
  const CONTENT_LENGTH: seq<Byte> := [99, 111, 110, 116, 101, 110, 116, 45, 108, 101, 110, 103, 116, 104]

  /** "chunked" */
  const CHUNKED: seq<Byte> := [99, 104, 117, 110, 107, 101, 100]
}

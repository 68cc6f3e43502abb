/** JSON text as tokens. */
module JsonTokens {
  import opened Options
  import opened AbiSpec

  datatype Token =
    | NullToken
    | BoolToken(b: bool)
    | StringToken(s: string)
    | StartObject
    | KeyToken(key: string)
    | EndObject
    | StartArray
    | EndArray

  /** The tokens of a value. */
  function Tokens(v: Json): (r: seq<Token>)
    ensures |r| > 0
    decreases v, 1, 0
  {
    match v
    case Null => [NullToken]
    case Flag(b) => [BoolToken(b)]
    case Text(s) => [StringToken(s)]
    case Obj(_) => [StartObject] + MemberTokens(v, 0)
    case Arr(_) => [StartArray] + ItemTokens(v, 0)
  }

  function MemberTokens(v: Json, i: nat): (r: seq<Token>)
    requires v.Obj? && i <= |v.members|
    ensures |r| > 0
    decreases v, 0, |v.members| - i
  {
    if i == |v.members| then [EndObject]
    else [KeyToken(v.members[i].key)] + Tokens(v.members[i].value) + MemberTokens(v, i + 1)
  }

  function ItemTokens(v: Json, i: nat): (r: seq<Token>)
    requires v.Arr? && i <= |v.items|
    ensures |r| > 0
    decreases v, 0, |v.items| - i
  {
    if i == |v.items| then [EndArray] else Tokens(v.items[i]) + ItemTokens(v, i + 1)
  }

  /** The value of a token that is a value by itself. */
  function Scalar(t: Token): Option<Json> {
    match t
    case NullToken => Some(Null)
    case BoolToken(b) => Some(Flag(b))
    case StringToken(s) => Some(Text(s))
    case _ => None
  }

  /** A value does not begin with a key or an end. */
  lemma FirstToken(v: Json)
    ensures var f := Tokens(v)[0]; f != EndObject && f != EndArray && !f.KeyToken?
    ensures Scalar(Tokens(v)[0]) == if v.Obj? || v.Arr? then None else Some(v)
    ensures v.Obj? || v.Arr? || |Tokens(v)| == 1
    ensures Tokens(v)[0] == NullToken <==> v == Null
    ensures Tokens(v)[0] == StartObject <==> v.Obj?
    ensures Tokens(v)[0] == StartArray <==> v.Arr?
  {
  }
}

/**
 * The token helper (helpers/jwt.helper.ts).  A token is modelled by what it carries: its
 * claims and the key it was signed with; the compact wire form is left abstract, as a
 * `parse` function from the header text to the token it denotes (None: not a token).
 */
module Jwt {
  import opened Wrappers

  /** The payload claims the application reads: `id` (sign-in) and `email` (password reset). */
  datatype Claims = Claims(id: Option<int>, email: Option<string>)

  /** A signed token: its claims and the key of its signature. */
  datatype Token = Token(claims: Claims, key: string)

  /** `Constants.JWT_TOKEN_VERSION`. */
  const TOKEN_VERSION: string := "v1"

  /** The signing key of `encode`: `${JWT_SECRET}_${JWT_TOKEN_VERSION}`. */
  function SigningKey(secret: string): (k: string)
    ensures k != secret && |k| == |secret| + 1 + |TOKEN_VERSION|
  {
    secret + "_" + TOKEN_VERSION
  }

  /** `encode(data)`: the claims signed with the versioned key. */
  function Encode(claims: Claims, secret: string): (t: Token)
    ensures t.claims == claims && t.key != secret
  {
    Token(claims, SigningKey(secret))
  }

  /** `decode(token)`: the claims of a token whose signature checks against the bare
      secret; None (`false`) for an empty or malformed token or a bad signature. */
  function Decode(wire: string, parse: string -> Option<Token>, secret: string): (r: Option<Claims>)
    ensures r.Some? <==> wire != "" && parse(wire).Some? && parse(wire).value.key == secret
    ensures r.Some? ==> r.value == parse(wire).value.claims
  {
    if wire == "" then None
    else match parse(wire)
      case None => None
      case Some(t) => if t.key == secret then Some(t.claims) else None
  }

  /** `justDecode(token)`: the claims of any well-formed token, signature unchecked. */
  function JustDecode(wire: string, parse: string -> Option<Token>): (r: Option<Claims>)
    ensures r.Some? <==> wire != "" && parse(wire).Some?
    ensures r.Some? ==> r.value == parse(wire).value.claims
  {
    if wire == "" then None
    else match parse(wire)
      case None => None
      case Some(t) => Some(t.claims)
  }

  /** As written, `decode` rejects every token `encode` issues: the keys differ. */
  lemma EncodedNeverDecodes(claims: Claims, secret: string, wire: string, parse: string -> Option<Token>)
    requires parse(wire) == Some(Encode(claims, secret))
    ensures Decode(wire, parse, secret) == None
  {
  }

  /** `decode` checking against the same versioned key `encode` signs with. */
  function DecodeVersioned(wire: string, parse: string -> Option<Token>, secret: string): (r: Option<Claims>)
    ensures r.Some? ==> wire != "" && parse(wire).Some? && parse(wire).value.key == SigningKey(secret)
  {
    Decode(wire, parse, SigningKey(secret))
  }

  /** With the versioned key, decoding what `encode` issued gives back its claims. */
  lemma EncodeDecodeVersioned(claims: Claims, secret: string, wire: string, parse: string -> Option<Token>)
    requires wire != "" && parse(wire) == Some(Encode(claims, secret))
    ensures DecodeVersioned(wire, parse, secret) == Some(claims)
  {
  }

  /** `justDecode` accepts a token signed with any key at all. */
  lemma JustDecodeIgnoresKey(claims: Claims, key: string, wire: string, parse: string -> Option<Token>)
    requires wire != "" && parse(wire) == Some(Token(claims, key))
    ensures JustDecode(wire, parse) == Some(claims)
  {
  }
}

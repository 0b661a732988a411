/** The JWT decoder's structural half: splitting the token into its three
    parts, turning each base64url part into padded standard base64, and
    the expiry check. Base64 and JSON decoding belong to the browser and
    are passed in as one function from a padded part to its decoded value
    (`None` where `atob` or `JSON.parse` throws). */
module JwtDecoder {
  import opened Wrappers
  import opened TextUtil
  import opened JsNumber

  /** A decoded token: header, payload and the signature as written. */
  datatype Jwt<J> = Jwt(header: J, payload: J, signature: string)

  /** `-` becomes `+` and `_` becomes `/`. */
  function Standard(c: char): (d: char)
    ensures d != '-' && d != '_'
    ensures c != '-' && c != '_' ==> d == c
  {
    if c == '-' then '+' else if c == '_' then '/' else c
  }

  /** `s.padEnd(width, c)`. */
  function PadEnd(s: string, width: nat, c: char): (r: string)
    ensures |s| >= width ==> r == s
    ensures |s| < width ==> |r| == width
    ensures r[..|s|] == s
    ensures forall i :: |s| <= i < |r| ==> r[i] == c
  {
    if |s| >= width then s else s + Repeat(c, width - |s|)
  }

  /** The `decode` helper's input: base64url turned into standard base64,
      padded with `=` to a multiple of four. */
  function Normalize(str: string): (padded: string)
    ensures |padded| % 4 == 0 && |str| <= |padded| < |str| + 4
    ensures forall i :: 0 <= i < |str| ==> padded[i] == Standard(str[i])
    ensures forall i :: |str| <= i < |padded| ==> padded[i] == '='
  {
    var swapped := seq(|str|, i requires 0 <= i < |str| => Standard(str[i]));
    PadEnd(swapped, |str| + (4 - |str| % 4) % 4, '=')
  }

  /** The normalised part holds no `-` or `_`. */
  lemma NormalizeAlphabet(str: string)
    ensures '-' !in Normalize(str) && '_' !in Normalize(str)
  {
    var p := Normalize(str);
    forall i | 0 <= i < |p| ensures p[i] != '-' && p[i] != '_' {
      if i < |str| { assert p[i] == Standard(str[i]); }
    }
  }

  /** The padded length is the least multiple of four at or above the
      part's length. */
  lemma NormalizeLeast(str: string, n: nat)
    requires n % 4 == 0 && n >= |str|
    ensures |Normalize(str)| <= n
  {
  }

  /** Normalising again changes nothing. */
  lemma NormalizeIdempotent(str: string)
    ensures Normalize(Normalize(str)) == Normalize(str)
  {
    var p := Normalize(str);
    var q := Normalize(p);
    assert |q| == |p|;
    forall i | 0 <= i < |p| ensures q[i] == p[i] {
      if i < |str| { assert p[i] == Standard(str[i]); }
    }
  }

  /** `decodeJwt(token)`: `None` unless the token has exactly three parts
      and the first two decode. */
  function DecodeJwt<J>(token: string, decode: string -> Option<J>): (r: Option<Jwt<J>>)
    ensures |SplitOn(token, '.')| != 3 ==> r.None?
    ensures r.Some? <==>
              |SplitOn(token, '.')| == 3 &&
              decode(Normalize(SplitOn(token, '.')[0])).Some? &&
              decode(Normalize(SplitOn(token, '.')[1])).Some?
    ensures r.Some? ==>
              && Some(r.value.header) == decode(Normalize(SplitOn(token, '.')[0]))
              && Some(r.value.payload) == decode(Normalize(SplitOn(token, '.')[1]))
              && r.value.signature == SplitOn(token, '.')[2]
  {
    var parts := SplitOn(token, '.');
    if |parts| != 3 then None
    else
      match (decode(Normalize(parts[0])), decode(Normalize(parts[1])))
      case (Some(header), Some(payload)) => Some(Jwt(header, payload, parts[2]))
      case _ => None
  }

  /** Only a token with exactly two dots can decode. */
  lemma TwoDots<J>(token: string, decode: string -> Option<J>)
    requires DecodeJwt(token, decode).Some?
    ensures Count(token, '.') == 2
  {
    SplitCount(token, '.');
  }

  /** A token `h.p.s` is read part by part, and its signature is `s`
      unchanged. */
  lemma ThreeParts<J>(h: string, p: string, s: string, decode: string -> Option<J>)
    requires '.' !in h && '.' !in p && '.' !in s
    ensures SplitOn(h + "." + p + "." + s, '.') == [h, p, s]
    ensures DecodeJwt(h + "." + p + "." + s, decode).Some? ==>
              DecodeJwt(h + "." + p + "." + s, decode).value.signature == s
  {
    var t := h + "." + p + "." + s;
    assert t == h + ['.'] + (p + ['.'] + s);
    calc {
      SplitOn(t, '.');
      { SplitConcat(h, p + ['.'] + s, '.'); }
      [h] + SplitOn(p + ['.'] + s, '.');
      { SplitConcat(p, s, '.'); }
      [h] + ([p] + SplitOn(s, '.'));
      { SplitNoSep(s, '.'); }
      [h, p, s];
    }
  }

  /** What the component shows for the typed token. */
  datatype View<J> = View(decoded: Option<Jwt<J>>, hasToken: bool, invalid: bool)

  /** The token is trimmed first; blank input is neither decoded nor
      reported invalid. */
  function Display<J>(token: string, decode: string -> Option<J>): (v: View<J>)
    ensures IsBlank(token) ==> v.decoded.None? && !v.hasToken && !v.invalid
    ensures !IsBlank(token) ==> v.hasToken && v.decoded == DecodeJwt(Trim(token), decode)
    ensures v.invalid <==> !IsBlank(token) && DecodeJwt(Trim(token), decode).None?
  {
    var trimmed := Trim(token);
    var decoded := if trimmed != "" then DecodeJwt(trimmed, decode) else None;
    var hasToken := |trimmed| > 0;
    View(decoded, hasToken, hasToken && decoded.None?)
  }

  /** `isExpired`: an `exp` claim, read as a number of seconds, that is
      present, non-zero and before `now`, a time in milliseconds. */
  function IsExpired(exp: Option<int>, now: int): (r: bool)
    ensures r ==> exp.Some? && exp.value != 0
    ensures exp.Some? && exp.value != 0 ==> (r <==> exp.value < (now + 999) / 1000)
  {
    match exp
    case None => false
    case Some(e) => e != 0 && e * 1000 < now
  }

  /** Once expired, a token stays expired. */
  lemma ExpiredStays(exp: Option<int>, now: int, later: int)
    requires IsExpired(exp, now) && now <= later
    ensures IsExpired(exp, later)
  {
  }

  /** Expiry is decided by the seconds claim scaled to milliseconds: a
      claim of `e` seconds has passed exactly from `1000 * e + 1` on. */
  lemma ExpiryBoundary(e: int, now: int)
    requires e != 0
    ensures IsExpired(Some(e), now) <==> now >= e * 1000 + 1
  {
  }

  /** A missing or zero claim never expires. */
  lemma NoClaimNoExpiry(now: int)
    ensures !IsExpired(None, now) && !IsExpired(Some(0), now)
  {
  }
}

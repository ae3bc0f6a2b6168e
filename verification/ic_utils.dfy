/** The absent-string sentinel codec and string duplication of
    common/ic-utils.c. */
module IcUtils {
  import opened Wrappers

  /** The reserved string that stands for an absent (NULL) string on the
      wire (IC_STR_NULL). */
  const StrNull: string := "(NULL)"

  /** `ic_utils_strdup`: NULL stays NULL, anything else is copied. */
  function Strdup(src: Option<string>): (r: Option<string>)
    ensures r.None? <==> src.None?
    ensures r.Some? ==> r.value == src.value
  {
    match src
    case None => None
    case Some(s) => Some(s)
  }

  /** `ic_utils_dbus_encode_str`: an absent string becomes the sentinel. */
  function DbusEncodeStr(src: Option<string>): (r: string)
    ensures src.Some? ==> r == src.value
    ensures r == StrNull <==> (src.None? || src == Some(StrNull))
  {
    if src.Some? then src.value else StrNull
  }

  /** `ic_utils_dbus_decode_str`: NULL and the sentinel decode as absent,
      anything else is returned unchanged. */
  function DbusDecodeStr(src: Option<string>): (r: Option<string>)
    ensures r != Some(StrNull)
    ensures r.None? <==> (src.None? || src == Some(StrNull))
    ensures r.Some? ==> r == src
  {
    match src
    case None => None
    case Some(s) => if s == StrNull then None else Some(s)
  }

  /** Decoding undoes encoding for every string except the sentinel itself. */
  lemma DecodeEncode(x: Option<string>)
    requires x != Some(StrNull)
    ensures DbusDecodeStr(Some(DbusEncodeStr(x))) == x
  {
  }

  /** A user string equal to the sentinel does not survive the round trip:
      it comes back absent. */
  lemma SentinelCollapses()
    ensures DbusDecodeStr(Some(DbusEncodeStr(Some(StrNull)))) == None
  {
  }

  /** Encoding undoes decoding for every present wire string. */
  lemma EncodeDecode(s: string)
    ensures DbusEncodeStr(DbusDecodeStr(Some(s))) == s
  {
  }
}

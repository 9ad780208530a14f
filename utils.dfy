/** The validators of utils.js: `validateGroupName` and `sanitizeImageURL`. */
module Utils {
  import opened Types
  import opened Seqs
  import opened Text

  // ---------------------------------------------------------------- group names

  /** The argument of `validateGroupName`: a string, or any other value. */
  datatype NameInput = Text(s: string) | NotAString

  const MaxNameLength: nat := 50

  /** The characters `/[<>"'`]/g` removes. */
  predicate Unsafe(c: char) {
    c == '<' || c == '>' || c == '"' || c == '\'' || c == '`'
  }

  predicate Safe(c: char) { !Unsafe(c) }

  /** `name.trim().replace(/[<>"'`]/g, '')` */
  function Stripped(name: string): (r: string)
    ensures forall i :: 0 <= i < |r| ==> Safe(r[i])
  {
    var r := Filter(Trim(name), Safe);
    assert forall i :: 0 <= i < |r| ==> r[i] in r;
    r
  }

  /** `validateGroupName`: `None` is the `false` it returns for a falsy or
      non-string argument and for a name left empty by the cleaning. */
  function ValidateGroupName(name: NameInput): (r: Option<string>)
  {
    if name.NotAString? || name.s == "" then None
    else
      var cleaned := Prefix(Stripped(name.s), MaxNameLength);
      if |cleaned| > 0 then Some(cleaned) else None
  }

  /** The result is `false` exactly for a non-string argument or a name that
      is empty after trimming and stripping; otherwise it is the first fifty
      characters of the trimmed, stripped name, and it holds none of the five
      stripped characters. */
  lemma ValidateGroupNameFacts(name: NameInput)
    ensures ValidateGroupName(name).None? <==> name.NotAString? || Stripped(name.s) == []
    ensures ValidateGroupName(name).Some? ==>
      var r := ValidateGroupName(name).value;
      && r != []
      && |r| <= MaxNameLength
      && r == Stripped(name.s)[..|r|]
      && (|Stripped(name.s)| >= MaxNameLength ==> |r| == MaxNameLength)
      && (|Stripped(name.s)| < MaxNameLength ==> r == Stripped(name.s))
      && forall i :: 0 <= i < |r| ==> !Unsafe(r[i])
  {
    if name.Text? && name.s == "" {
      assert Trim(name.s) == [];
    }
  }

  /** Trimming comes before stripping, so a stripped character can uncover
      whitespace that then stays at the front of the result. */
  lemma StripAfterTrim()
    ensures ValidateGroupName(Text("< a")) == Some(" a")
  {
    var s := "< a";
    assert !IsWhitespace(s[0]) && !IsWhitespace(s[2]);
    assert TrimStart(s) == s;
    assert TrimEnd(s) == s;
    FilterExample();
  }

  lemma FilterExample()
    ensures Filter("< a", Safe) == " a"
  {
    var s := "< a";
    assert !Safe(s[0]) && Safe(s[1]) && Safe(s[2]);
    assert s[1..][1..] == "a" && "a"[1..] == [];
    assert Filter("a", Safe) == "a";
    assert Filter(" a", Safe) == " a";
  }

  // ---------------------------------------------------------------- image URLs

  /** The protocols `sanitizeImageURL` lets through. */
  predicate AllowedProtocol(protocol: string) {
    protocol == "https:" || protocol == "chrome:" || protocol == "chrome-extension:" || protocol == "data:"
  }

  /** `sanitizeImageURL(url)`, with the URL parser given as `parse`: the
      protocol of a parsable URL, `None` when `new URL` throws. A `None`
      argument is `null` or `undefined`. */
  function SanitizeImageUrl(url: Option<string>, parse: string -> Option<string>): (r: Option<string>)
  {
    if url.None? || url.value == "" then None
    else
      match parse(url.value)
      case None => None
      case Some(protocol) => if AllowedProtocol(protocol) then url else None
  }

  /** The result is null or the argument unchanged, never a rewritten URL; it
      is the argument exactly when that is a non-empty string the parser
      accepts with one of the four allowed protocols. */
  lemma SanitizeImageUrlFacts(url: Option<string>, parse: string -> Option<string>)
    ensures SanitizeImageUrl(url, parse) == None || SanitizeImageUrl(url, parse) == url
    ensures SanitizeImageUrl(url, parse).Some? <==>
      url.Some? && url.value != [] && parse(url.value).Some? && AllowedProtocol(parse(url.value).value)
  {
  }
}

/**
 * Icon conversion: the dispatch of `toImage` over the kinds of icon value a
 * toast may carry, and the syntactic base64 check that guards decoding, the
 * regular expression `^([A-Za-z0-9+/]{4})*([A-Za-z0-9+/]{3}=|[A-Za-z0-9+/]{2}==)?$`
 * over the alphabet of section 4 of RFC 4648 with padding.
 */
module ToasterUtils {
  import opened Wrappers

  /** One character of the base64 alphabet (RFC 4648, section 4). */
  predicate IsBase64Char(c: char) {
    ('A' <= c <= 'Z') || ('a' <= c <= 'z') || ('0' <= c <= '9') || c == '+' || c == '/'
  }

  /** `[A-Za-z0-9+/]{4}`. */
  predicate FullQuad(q: string) {
    |q| == 4 && IsBase64Char(q[0]) && IsBase64Char(q[1]) && IsBase64Char(q[2]) && IsBase64Char(q[3])
  }

  /** `[A-Za-z0-9+/]{3}=|[A-Za-z0-9+/]{2}==`. */
  predicate PaddedQuad(q: string) {
    && |q| == 4 && IsBase64Char(q[0]) && IsBase64Char(q[1]) && q[3] == '='
    && (IsBase64Char(q[2]) || q[2] == '=')
  }

  /**
   * The regular expression, matched against the whole string: any number of
   * full quads, optionally followed by one padded quad at the very end.
   */
  predicate MatchesBase64(s: string): (b: bool)
    ensures b ==> |s| % 4 == 0
    ensures b ==>
      forall i :: 0 <= i < |s| ==> IsBase64Char(s[i]) || (i >= |s| - 2 && s[i] == '=')
    decreases |s|
  {
    if s == [] then true
    else if |s| < 4 then false
    else (FullQuad(s[..4]) && MatchesBase64(s[4..])) || (|s| == 4 && PaddedQuad(s))
  }

  /**
   * The accepted strings described position by position: the length is a
   * multiple of 4; every character but the last two is in the alphabet; the
   * last is in the alphabet or '='; the one before it is in the alphabet, or
   * '=' when the last one is '=' too.
   */
  predicate Base64Shape(s: string) {
    && |s| % 4 == 0
    && (forall i :: 0 <= i < |s| - 2 ==> IsBase64Char(s[i]))
    && (|s| >= 2 ==> IsBase64Char(s[|s| - 2]) || (s[|s| - 2] == '=' && s[|s| - 1] == '='))
    && (|s| >= 1 ==> IsBase64Char(s[|s| - 1]) || s[|s| - 1] == '=')
  }

  /** The regular expression accepts exactly the strings of that shape. */
  lemma {:induction false} MatchesBase64IsShape(s: string)
    ensures MatchesBase64(s) <==> Base64Shape(s)
    decreases |s|
  {
    if |s| >= 4 {
      var rest := s[4..];
      MatchesBase64IsShape(rest);
      if FullQuad(s[..4]) && MatchesBase64(rest) {
        forall i | 0 <= i < |s| - 2
          ensures IsBase64Char(s[i])
        {
          if i >= 4 {
            assert s[i] == rest[i - 4];
          } else {
            assert s[i] == s[..4][i];
          }
        }
        if rest != [] {
          assert s[|s| - 2] == rest[|rest| - 2] && s[|s| - 1] == rest[|rest| - 1];
        }
      }
      if Base64Shape(s) && |s| > 4 {
        assert FullQuad(s[..4]);
        forall i | 0 <= i < |rest| - 2
          ensures IsBase64Char(rest[i])
        {
          assert rest[i] == s[i + 4];
        }
        assert rest[|rest| - 2] == s[|s| - 2] && rest[|rest| - 1] == s[|s| - 1];
        assert Base64Shape(rest);
      }
      if Base64Shape(s) && |s| == 4 && !FullQuad(s[..4]) {
        assert PaddedQuad(s);
      }
    }
  }

  /**
   * What the check lets through: a length divisible by 4, only the alphabet
   * and '=', and the padding only as the last one or two characters, so at
   * most two '='. The empty string passes.
   */
  lemma AcceptedStrings(s: string)
    requires MatchesBase64(s)
    ensures |s| % 4 == 0
    ensures forall i :: 0 <= i < |s| ==> IsBase64Char(s[i]) || s[i] == '='
    ensures forall i :: 0 <= i < |s| && s[i] == '=' ==> i >= |s| - 2 && s[|s| - 1] == '='
  {
    MatchesBase64IsShape(s);
  }

  lemma EmptyIsAccepted()
    ensures MatchesBase64("")
  {
  }

  /** Examples: padded and unpadded encodings pass; a misplaced or third '=' and a short string fail. */
  lemma MatchExamples()
    ensures MatchesBase64("TWFu") && MatchesBase64("TWE=") && MatchesBase64("TQ==")
    ensures !MatchesBase64("T===") && !MatchesBase64("TW=u") && !MatchesBase64("TWF")
  {
    assert FullQuad("TWFu"[..4]);
    assert PaddedQuad("TWE=") && PaddedQuad("TQ==");
    assert !FullQuad("T==="[..4]) && !FullQuad("TW=u"[..4]);
  }

  /** An image handle of the toolkit. */
  datatype Image = Image(handle: int)

  /** A description from which the toolkit creates an image. */
  datatype ImageDescriptor = ImageDescriptor(id: int)

  /** The kinds of icon value a toast may carry. */
  datatype IconValue =
    | AnImage(image: Image)
    | ADescriptor(descriptor: ImageDescriptor)
    | AString(text: string)
    | Null
    | Unsupported

  /**
   * `toImage`. The toolkit's image creation and the base64 decoding are
   * parameters; `fromBase64` yields None where it throws `SWTException`.
   * The result is None where the source returns null.
   */
  function ToImage(value: IconValue, createImage: ImageDescriptor -> Image, fromBase64: string -> Option<Image>): (r: Option<Image>)
    ensures value.AnImage? ==> r == Some(value.image)
    ensures value.ADescriptor? ==> r == Some(createImage(value.descriptor))
    ensures value.Null? || value.Unsupported? ==> r.None?
  {
    match value
    case AnImage(image) => Some(image)
    case ADescriptor(d) => Some(createImage(d))
    case AString(s) => if MatchesBase64(s) then fromBase64(s) else None
    case Null => None
    case Unsupported => None
  }

  /**
   * A string yields an image exactly when it has the base64 shape and its
   * decoding succeeds; the decoder never sees a string of another shape.
   */
  lemma StringIcon(s: string, createImage: ImageDescriptor -> Image, fromBase64: string -> Option<Image>)
    ensures ToImage(AString(s), createImage, fromBase64).Some? <==> Base64Shape(s) && fromBase64(s).Some?
    ensures ToImage(AString(s), createImage, fromBase64).Some? ==> ToImage(AString(s), createImage, fromBase64) == fromBase64(s)
    ensures !Base64Shape(s) ==> ToImage(AString(s), createImage, fromBase64).None?
  {
    MatchesBase64IsShape(s);
  }
}

/**
 * The credential side of JwtConfig.kt: the input-validation policy of
 * `ValidationUtils`, the token lifetime, and the claims a token carries.
 * Signing and verifying the token is not part of this model; a token is
 * its record of claims.
 */
module Auth {
  import opened AsciiText

  const ISSUER: string := "meme-app"
  const AUDIENCE: string := "meme-app-users"
  /** Seven days, in milliseconds. */
  const VALIDITY_MS: int := 1000 * 60 * 60 * 24 * 7

  const IMAGE_HOST: string := "https://res.cloudinary.com/"

  /**
   * The claims of a session token as `generateToken` writes them.
   * `expiresAtMs` is the expiry `Date` in milliseconds, before the signer
   * truncates it to the whole seconds of the `exp` claim.
   */
  datatype Token = Token(subject: string, issuer: string, audience: string,
                         userId: string, username: string, expiresAtMs: int)

  /** `generateToken(userId, username)`, issued at `nowMs` (the clock reading). */
  function GenerateToken(userId: string, username: string, nowMs: int): (t: Token)
    ensures t.userId == userId && t.username == username
    ensures t.issuer == "meme-app" && t.audience == "meme-app-users" && t.subject == "Authentication"
    ensures t.expiresAtMs == nowMs + 604800000
  {
    Token("Authentication", ISSUER, AUDIENCE, userId, username, nowMs + VALIDITY_MS)
  }

  /** `isValidEmail`: a deliberately loose check, an '@' and a '.' anywhere. */
  predicate IsValidEmail(email: string) {
    '@' in email && '.' in email
  }

  /** The characters of the regular expression `[a-zA-Z0-9_]`. */
  predicate IsUsernameChar(c: char) {
    'a' <= c <= 'z' || 'A' <= c <= 'Z' || '0' <= c <= '9' || c == '_'
  }

  /** `isValidUsername`: length 3 to 20 and the whole string matches `^[a-zA-Z0-9_]+$`. */
  predicate IsValidUsername(username: string) {
    && Utf16Length(username) >= 3
    && Utf16Length(username) <= 20
    && forall i :: 0 <= i < |username| ==> IsUsernameChar(username[i])
  }

  /** `isValidPassword`: at least six UTF-16 code units. */
  predicate IsValidPassword(password: string) {
    Utf16Length(password) >= 6
  }

  /** `isValidImageUrl`: the fixed host prefix, and one of four extensions anywhere in the URL. */
  predicate IsValidImageUrl(url: string) {
    && StartsWith(url, IMAGE_HOST)
    && (Contains(url, ".jpg") || Contains(url, ".png") || Contains(url, ".gif") || Contains(url, ".jpeg"))
  }

  /** Because the allowed characters are ASCII, the length bounds count characters. */
  lemma ValidUsernameExactly(username: string)
    ensures IsValidUsername(username) <==>
      3 <= |username| <= 20 && forall i :: 0 <= i < |username| ==> IsUsernameChar(username[i])
  {
    if forall i :: 0 <= i < |username| ==> IsUsernameChar(username[i]) {
      Utf16LengthOfBmp(username);
    }
  }

  lemma UsernameRejectsSpaceAndDash(username: string, i: int)
    requires 0 <= i < |username| && (username[i] == ' ' || username[i] == '-')
    ensures !IsValidUsername(username)
  {
  }

  /** A valid username has no surrounding whitespace, so `trim()` leaves it as it is. */
  lemma ValidUsernameIsTrimmed(username: string)
    requires IsValidUsername(username)
    ensures Trim(username) == username
  {
    TrimOfTrimmed(username);
  }

  /** Five characters are too few and six are enough. */
  lemma PasswordLengthBoundary()
    ensures !IsValidPassword("12345")
    ensures IsValidPassword("123456")
  {
    Utf16LengthOfBmp("12345");
    Utf16LengthOfBmp("123456");
  }

  /** A character outside the Basic Multilingual Plane counts twice: three emoji make a valid password. */
  lemma PasswordCountsUtf16Units()
    ensures IsValidPassword("\U{1F600}\U{1F600}\U{1F600}")
  {
  }

  lemma EmailCheckIsPermissive()
    ensures IsValidEmail("@.")
    ensures !IsValidEmail("alice@example")
  {
  }

  /** A plain-http URL on the right host is refused. */
  lemma ImageUrlNeedsHttpsHost()
    ensures !IsValidImageUrl("http://res.cloudinary.com/demo/cat.jpg")
  {
    assert "http://res.cloudinary.com/demo/cat.jpg"[4] != IMAGE_HOST[4];
  }

  /** The extension may occur anywhere, not only at the end. */
  lemma ImageUrlExtensionAnywhere()
    ensures IsValidImageUrl("https://res.cloudinary.com/a.jpg/b.exe")
  {
    var url := "https://res.cloudinary.com/a.jpg/b.exe";
    assert url[..|IMAGE_HOST|] == IMAGE_HOST;
    assert OccursAt(url, ".jpg", 28);
  }
}

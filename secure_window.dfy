/**
 * SecureWindow.cs: a second window base class whose load-time check reads the role from
 * encrypted application settings (`SecureStorage`) and shuts the application down on a
 * mismatch. The settings are a map from each declared setting name to its stored text; AES
 * with the fixed key and IV is an opaque `Cipher`.
 */
module SecureWindow {
  import opened Wrappers

  /** Encrypt-then-Base64 and Base64-then-decrypt with the fixed key and IV; `decrypt` is
      `None` where `Convert.FromBase64String` or the decryptor throws. */
  datatype Cipher = Cipher(encrypt: string -> string, decrypt: string -> Option<string>)

  /** What the model relies on about AES-CBC with PKCS7 padding: a ciphertext is never empty
      (at least one block) and decrypts back to the plain text. */
  ghost predicate RoundTrips(c: Cipher) {
    forall p :: c.encrypt(p) != [] && c.decrypt(c.encrypt(p)) == Some(p)
  }

  /** What `SecureStorage.Get(key)` returns: "" for an undeclared setting (the indexer's
      exception is caught), for an empty stored text, and for text that does not decrypt. */
  function Lookup(c: Cipher, settings: map<string, string>, key: string): string {
    if key !in settings || settings[key] == "" then ""
    else c.decrypt(settings[key]).GetOr("")
  }

  /** A value stored under a declared name reads back as itself, and storing it leaves every
      other setting reading as before. */
  lemma SetThenGet(c: Cipher, settings: map<string, string>, key: string, value: string, other: string)
    requires RoundTrips(c) && key in settings && other != key
    ensures Lookup(c, settings[key := c.encrypt(value)], key) == value
    ensures Lookup(c, settings[key := c.encrypt(value)], other) == Lookup(c, settings, other)
  {
  }

  /** `SecureStorage`: the application's settings, held encrypted. */
  class SecureStorage {
    const cipher: Cipher
    var settings: map<string, string>

    constructor (cipher: Cipher, settings: map<string, string>)
      ensures this.cipher == cipher && this.settings == settings
    {
      this.cipher := cipher;
      this.settings := settings;
    }

    /** `Set(keyName, value)`: nothing for a null or empty name; otherwise the encrypted value
        replaces the setting's text, or, for a name that is not a declared setting, the
        indexer throws (`thrown`) and nothing changes. */
    method Set(keyName: Option<string>, value: string) returns (thrown: bool)
      modifies this
      ensures keyName.None? || keyName.value == "" ==> !thrown && settings == old(settings)
      ensures keyName.Some? && keyName.value != "" ==> thrown == (keyName.value !in old(settings))
      ensures keyName.Some? && keyName.value != "" && !thrown ==>
        settings == old(settings)[keyName.value := cipher.encrypt(value)]
      ensures thrown ==> settings == old(settings)
    {
      if keyName.None? || keyName.value == "" {
        return false;
      }
      if keyName.value !in settings {
        return true;
      }
      settings := settings[keyName.value := cipher.encrypt(value)];
      return false;
    }

    /** `Get(keyName)`: the decrypted setting, or "" wherever that fails. */
    method Get(keyName: string) returns (r: string)
      ensures r == Lookup(cipher, settings, keyName)
      ensures keyName !in settings ==> r == ""
    {
      if keyName !in settings {
        return "";
      }
      var encrypted := settings[keyName];
      if encrypted == "" {
        return "";
      }
      match cipher.decrypt(encrypted)
      case None => return "";
      case Some(p) => return p;
    }

    /** `Remove(keyName)`: overwrites the setting with "", so that `Get` then returns "";
        an undeclared name throws and changes nothing. */
    method Remove(keyName: string) returns (thrown: bool)
      modifies this
      ensures thrown == (keyName !in old(settings))
      ensures !thrown ==> settings == old(settings)[keyName := ""] && Lookup(cipher, settings, keyName) == ""
      ensures thrown ==> settings == old(settings)
    {
      if keyName !in settings {
        return true;
      }
      settings := settings[keyName := ""];
      return false;
    }
  }

  /** What the `Loaded` handler does: let the window open, or deny and shut the application down. */
  datatype Access = Granted | DeniedShutdown

  /** The check of `SecureWindow_Loaded`: a non-empty stored role that is not, exactly, one of
      the allowed roles is denied; no allowed roles, or an empty stored role, lets anyone in. */
  function AccessOnLoad(allowedRoles: seq<Option<string>>, currentRole: string): (a: Access)
    ensures a == DeniedShutdown <==>
      allowedRoles != [] && currentRole != [] && forall i :: 0 <= i < |allowedRoles| ==> allowedRoles[i] != Some(currentRole)
  {
    if |allowedRoles| > 0 && currentRole != "" && Some(currentRole) !in allowedRoles then DeniedShutdown else Granted
  }

  /** The `SecureWindow` of SecureWindow.cs. */
  class Window {
    const allowedRoles: seq<Option<string>>

    /** A null roles argument is stored as the empty list. */
    constructor (allowedRoles: Option<seq<Option<string>>>)
      ensures this.allowedRoles == allowedRoles.GetOr([])
    {
      this.allowedRoles := allowedRoles.GetOr([]);
    }

    /** `SecureWindow_Loaded`: the stored "UserRole" setting against the allowed roles. */
    method Loaded(storage: SecureStorage) returns (a: Access)
      ensures a == AccessOnLoad(allowedRoles, Lookup(storage.cipher, storage.settings, "UserRole"))
    {
      var currentRole := storage.Get("UserRole");
      if |allowedRoles| > 0 && currentRole != "" {
        if Some(currentRole) !in allowedRoles {
          return DeniedShutdown;
        }
      }
      return Granted;
    }
  }

  /** A window with no allowed roles (a null argument included) never denies, and neither
      does any window while the "UserRole" setting is missing, removed or undecryptable. */
  lemma NeverDeniedWithoutRoles(c: Cipher, settings: map<string, string>, allowedRoles: seq<Option<string>>, role: string)
    ensures AccessOnLoad([], role) == Granted
    ensures "UserRole" !in settings || settings["UserRole"] == "" || c.decrypt(settings["UserRole"]).None? ==>
      AccessOnLoad(allowedRoles, Lookup(c, settings, "UserRole")) == Granted
  {
  }
}

/** Reference-token escaping of JSON Pointer (section 3 and section 4 of
    RFC 6901): inside a token `~` is written `~0` and `/` is written `~1`.
    Both `refs.py` and `cache.py` decode a token with the same two
    `str.replace` calls, `~1` first and `~0` second. */
module Pointer {
  import opened Text

  /** `part.replace("~1", "/").replace("~0", "~")`. */
  function Unescape(token: string): string {
    Replace(Replace(token, "~1", "/"), "~0", "~")
  }

  /** The encoding a writer of pointers applies to a key (the tool itself
      never escapes, see `Cache.PreIndexedKeyQuirk`). */
  function Escape(key: string): (token: string)
    ensures '/' !in token
  {
    if key == [] then []
    else if key[0] == '~' then "~0" + Escape(key[1..])
    else if key[0] == '/' then "~1" + Escape(key[1..])
    else [key[0]] + Escape(key[1..])
  }

  /** What is left of an escaped key after the first `replace`: `~0` stays,
      `~1` has become `/` again. */
  function HalfDecoded(key: string): string {
    if key == [] then []
    else if key[0] == '~' then "~0" + HalfDecoded(key[1..])
    else [key[0]] + HalfDecoded(key[1..])
  }

  lemma {:induction false} FirstPass(key: string)
    ensures Replace(Escape(key), "~1", "/") == HalfDecoded(key)
  {
    if key != [] {
      var t := Escape(key[1..]);
      FirstPass(key[1..]);
      if key[0] == '~' {
        var s := "~0" + t;
        assert s[..2] == "~0";
        assert s[1..] == "0" + t;
        ReplaceSkip('0', t, "~1", "/");
      } else if key[0] == '/' {
        ReplaceHit(t, "~1", "/");
      } else {
        ReplaceSkip(key[0], t, "~1", "/");
      }
    }
  }

  lemma {:induction false} SecondPass(key: string)
    ensures Replace(HalfDecoded(key), "~0", "~") == key
  {
    if key != [] {
      var t := HalfDecoded(key[1..]);
      SecondPass(key[1..]);
      if key[0] == '~' {
        ReplaceHit(t, "~0", "~");
      } else {
        ReplaceSkip(key[0], t, "~0", "~");
      }
      assert [key[0]] + key[1..] == key;
    }
  }

  /** Decoding undoes encoding, for every key: the order of the two
      replacements (`~1` before `~0`) is the one section 4 of RFC 6901
      prescribes. */
  lemma UnescapeEscape(key: string)
    ensures Unescape(Escape(key)) == key
  {
    FirstPass(key);
    SecondPass(key);
  }

  /** A token without `~` decodes to itself. */
  lemma UnescapePlain(token: string)
    requires '~' !in token
    ensures Unescape(token) == token
  {
    ReplaceAbsent(token, "~1", "/");
    ReplaceAbsent(token, "~0", "~");
  }

  /** Decoding `~01` gives `~1`, not `/`: `~1` is replaced first. */
  lemma UnescapeOrder()
    ensures Unescape("~01") == "~1"
  {
    var s := "~01";
    assert s[..2] == "~0" && s[1..] == "01";
    assert Replace("01", "~1", "/") == "01" by {
      assert "01"[..2] == "01" && "01"[1..] == "1";
      assert Replace("1", "~1", "/") == "1";
    }
    ReplaceHit("1", "~0", "~");
    assert Replace("1", "~0", "~") == "1";
  }
}

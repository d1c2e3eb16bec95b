/**
 * Message identities (`MsgId`) and translations (`MsgStr`) and their serialized
 * form inside an MO file (section 10.3 of the GNU gettext manual): the plural forms
 * or variants joined by NUL, with an optional context in front of the forms,
 * separated from them by the byte 0x04 (EOT).
 */
module Messages {
  import opened Wrappers
  import opened Bytes

  /** Separates the context of an identity from its forms. */
  const CONTEXT_SEPARATOR: byte := 0x04

  /** Separates the plural forms of an identity or the variants of a translation. */
  const FORM_SEPARATOR: byte := 0x00

  /**
   * The identity of a message: its singular form followed by its plural forms (each
   * as UTF-8 bytes), and an optional disambiguating context. An absent context and
   * an empty context are different identities.
   */
  datatype MsgId = MsgId(forms: seq<seq<byte>>, context: Option<seq<byte>>) {

    /**
     * At least one form and no form holding a form separator; a context holds no
     * context separator, and without a context no form holds one either (the
     * first context separator ends the context), so that the serialized form can
     * be split apart again.
     */
    predicate Valid() {
      && |forms| >= 1
      && (forall f :: f in forms ==> FORM_SEPARATOR !in f)
      && (context.None? ==> forall f :: f in forms ==> CONTEXT_SEPARATOR !in f)
      && (context.Some? ==> CONTEXT_SEPARATOR !in context.value)
    }

    /**
     * `toByteArray`: optional context and 0x04, then the forms joined by 0x00. The
     * bytes of a valid identity hold a context separator exactly when it has a context.
     */
    function ToBytes(): (r: seq<byte>)
      ensures Valid() ==> (CONTEXT_SEPARATOR in r <==> context.Some?)
    {
      match context
      case None =>
        if Valid() then
          JoinAvoids(forms, FORM_SEPARATOR, CONTEXT_SEPARATOR);
          Join(forms, FORM_SEPARATOR)
        else Join(forms, FORM_SEPARATOR)
      case Some(c) =>
        var r := c + [CONTEXT_SEPARATOR] + Join(forms, FORM_SEPARATOR);
        assert r[|c|] == CONTEXT_SEPARATOR;
        r
    }
  }

  /** A translation: one variant per plural category of the target language. */
  datatype MsgStr = MsgStr(variants: seq<seq<byte>>) {

    predicate Valid() {
      && |variants| >= 1
      && (forall v :: v in variants ==> FORM_SEPARATOR !in v)
    }

    /**
     * `toByteArray`: the variants joined by 0x00. The bytes of a valid translation
     * hold a NUL exactly when it has more than one variant.
     */
    function ToBytes(): (r: seq<byte>)
      ensures Valid() ==> (FORM_SEPARATOR in r <==> |variants| >= 2)
    {
      var r := Join(variants, FORM_SEPARATOR);
      if |variants| >= 2 then
        assert r[|variants[0]|] == FORM_SEPARATOR;
        r
      else r
    }
  }

  /** The catalog-metadata key: a single empty form and no context. */
  const METADATA_KEY: MsgId := MsgId([[]], None)

  /**
   * Reads an identity back from its serialized bytes: everything before the first
   * 0x04 is the context (none when there is no 0x04), the rest is split at 0x00.
   * Serializing the result gives back exactly the bytes read.
   */
  function ParseMsgId(b: seq<byte>): (id: MsgId)
    ensures id.ToBytes() == b
  {
    var i := IndexOf(b, CONTEXT_SEPARATOR);
    if i == |b| then
      MsgId(Split(b, FORM_SEPARATOR), None)
    else
      assert b == b[..i] + [CONTEXT_SEPARATOR] + b[i + 1..];
      MsgId(Split(b[i + 1..], FORM_SEPARATOR), Some(b[..i]))
  }

  /** Reads a translation back from its serialized bytes; the result is always valid. */
  function ParseMsgStr(b: seq<byte>): (s: MsgStr)
    ensures s.ToBytes() == b
    ensures s.Valid()
  {
    MsgStr(Split(b, FORM_SEPARATOR))
  }

  /** Parsing the bytes of a valid identity recovers the identity. */
  lemma ParseMsgIdInverse(id: MsgId)
    requires id.Valid()
    ensures ParseMsgId(id.ToBytes()) == id
  {
    var joined := Join(id.forms, FORM_SEPARATOR);
    SplitJoin(id.forms, FORM_SEPARATOR);
    match id.context
    case None =>
      JoinAvoids(id.forms, FORM_SEPARATOR, CONTEXT_SEPARATOR);
      assert IndexOf(joined, CONTEXT_SEPARATOR) == |joined|;
    case Some(c) =>
      var b := id.ToBytes();
      assert b == c + [CONTEXT_SEPARATOR] + joined;
      assert b[|c|] == CONTEXT_SEPARATOR && b[..|c|] == c;
      assert IndexOf(b, CONTEXT_SEPARATOR) == |c|;
      assert b[|c| + 1..] == joined;
  }

  /** Parsing the bytes of a valid translation recovers the translation. */
  lemma ParseMsgStrInverse(s: MsgStr)
    requires s.Valid()
    ensures ParseMsgStr(s.ToBytes()) == s
  {
    SplitJoin(s.variants, FORM_SEPARATOR);
  }

  /** Two different valid identities never serialize to the same bytes. */
  lemma MsgIdBytesInjective(a: MsgId, b: MsgId)
    requires a.Valid() && b.Valid()
    requires a.ToBytes() == b.ToBytes()
    ensures a == b
  {
    ParseMsgIdInverse(a);
    ParseMsgIdInverse(b);
  }

  /** The metadata key is the one valid identity whose serialization is empty. */
  lemma EmptyBytesIsMetadata(id: MsgId)
    requires id.Valid()
    ensures id.ToBytes() == [] <==> id == METADATA_KEY
  {
    assert METADATA_KEY.ToBytes() == [];
    assert METADATA_KEY.Valid();
    if id.ToBytes() == [] {
      MsgIdBytesInjective(id, METADATA_KEY);
    }
  }
}

/** What keys and tags depend on (src/state.rs:1246-1287): two derivations agree under every provider
    exactly when all that the format binds them to is the same. */
module Separation {
  import opened ByteStrings
  import opened Failures
  import opened ParameterSets
  import opened CipherSuites
  import opened Segments

  /** A provider that tells one derivation apart from all others. */
  function Marked(secret: Bytes, info: Bytes): RawSuite {
    Transparent.(expand := (k: Bytes, i: Bytes, n: nat) => seq(n, _ => if k == secret && i == info then 1 else 0))
  }

  lemma MarkedIsLawful(secret: Bytes, info: Bytes)
    ensures Marked(secret, info).Lawful()
  {
    TransparentIsLawful();
  }

  /** The info strings of one purpose determine their parts. */
  lemma InfoInjective(p: Parameters, v: Bytes, purpose: Bytes, rest: Bytes, p': Parameters, v': Bytes, rest': Bytes)
    requires |v| == |v'| == FLOE_IV_LENGTH
    requires p.Encode() + v + purpose + rest == p'.Encode() + v' + purpose + rest'
    ensures p == p' && v == v' && rest == rest'
  {
    var info, info' := p.Encode() + v + purpose + rest, p'.Encode() + v' + purpose + rest';
    var at := ENCODED_PARAMETERS_LENGTH;
    assert info[..at] == p.Encode() && info'[..at] == p'.Encode();
    assert info[at..at + FLOE_IV_LENGTH] == v && info'[at..at + FLOE_IV_LENGTH] == v';
    assert info[at + FLOE_IV_LENGTH + |purpose|..] == rest && info'[at + FLOE_IV_LENGTH + |purpose|..] == rest';
    ParametersRoundTrip(p);
    ParametersRoundTrip(p');
  }

  /** Two positions of two messages have the same key under every provider. */
  ghost predicate SameSegmentKey(c: MessageContext, p: nat, c': MessageContext, q: nat) {
    forall suite: CipherSuite :: SegmentKey(c.(suite := suite), p) == SegmentKey(c'.(suite := suite), q)
  }

  /** Segment keys rotate every 2^20 positions and belong to one message: they agree exactly for the
      same message key, parameters, IV and AAD, and for positions in the same stretch of 2^20. */
  lemma SegmentKeysSeparate(c: MessageContext, p: nat, c': MessageContext, q: nat)
    requires |c.floeIv| == |c'.floeIv| == FLOE_IV_LENGTH && c.suite == c'.suite
    requires p < 0x100_0000_0000 && q < 0x100_0000_0000
    ensures SameSegmentKey(c, p, c', q) <==> c == c' && p / 0x10_0000 == q / 0x10_0000
  {
    if SameSegmentKey(c, p, c', q) {
      var m, m' := p / 0x10_0000 * 0x10_0000, q / 0x10_0000 * 0x10_0000;
      var info := c.parameters.Encode() + c.floeIv + SEGMENT_KEY_PURPOSE + BigEndian(m, 8) + c.aad;
      var info' := c'.parameters.Encode() + c'.floeIv + SEGMENT_KEY_PURPOSE + BigEndian(m', 8) + c'.aad;
      MarkedIsLawful(c.messageKey, info);
      var suite: CipherSuite := Marked(c.messageKey, info);
      var key := SegmentKey(c.(suite := suite), p);
      assert key == SegmentKey(c'.(suite := suite), q);
      assert key.value[0] == 1;
      assert c.messageKey == c'.messageKey && info == info';
      SegmentInfoInjective(c, m, c', m');
    }
  }

  lemma SegmentInfoInjective(c: MessageContext, m: u64, c': MessageContext, m': u64)
    requires |c.floeIv| == |c'.floeIv| == FLOE_IV_LENGTH
    requires c.parameters.Encode() + c.floeIv + SEGMENT_KEY_PURPOSE + BigEndian(m, 8) + c.aad ==
             c'.parameters.Encode() + c'.floeIv + SEGMENT_KEY_PURPOSE + BigEndian(m', 8) + c'.aad
    ensures c.parameters == c'.parameters && c.floeIv == c'.floeIv && m == m' && c.aad == c'.aad
  {
    hide BigEndian;
    var front, front' := c.parameters.Encode() + c.floeIv + SEGMENT_KEY_PURPOSE, c'.parameters.Encode() + c'.floeIv + SEGMENT_KEY_PURPOSE;
    var rest, rest' := BigEndian(m, 8) + c.aad, BigEndian(m', 8) + c'.aad;
    assert front + BigEndian(m, 8) + c.aad == front + rest;
    assert front' + BigEndian(m', 8) + c'.aad == front' + rest';
    InfoInjective(c.parameters, c.floeIv, SEGMENT_KEY_PURPOSE, rest, c'.parameters, c'.floeIv, rest');
    assert rest[..8] == BigEndian(m, 8) && rest'[..8] == BigEndian(m', 8);
    assert rest[8..] == c.aad && rest'[8..] == c'.aad;
    PositionBytesInjective(m, m');
  }

  lemma PositionBytesInjective(m: u64, m': u64)
    requires BigEndian(m, 8) == BigEndian(m', 8)
    ensures m == m'
  {
    Pow256Values();
    BigEndianRoundTrip(m, 8);
    BigEndianRoundTrip(m', 8);
  }

  /** What a message is bound to. */
  datatype Origin = Origin(key: Bytes, aad: Bytes, parameters: Parameters, floeIv: Bytes)

  ghost predicate SameMessageKey(o: Origin, o': Origin) {
    forall suite: CipherSuite ::
      NewContext(suite, o.key, o.aad, o.parameters, o.floeIv).messageKey == NewContext(suite, o'.key, o'.aad, o'.parameters, o'.floeIv).messageKey
  }

  /** Message keys belong to one key, AAD, parameter set and IV. */
  lemma MessageKeysSeparate(o: Origin, o': Origin)
    requires |o.floeIv| == |o'.floeIv| == FLOE_IV_LENGTH
    ensures SameMessageKey(o, o') <==> o == o'
  {
    if SameMessageKey(o, o') {
      var info := o.parameters.Encode() + o.floeIv + MESSAGE_KEY_PURPOSE + o.aad;
      var info' := o'.parameters.Encode() + o'.floeIv + MESSAGE_KEY_PURPOSE + o'.aad;
      MarkedIsLawful(o.key, info);
      var suite: CipherSuite := Marked(o.key, info);
      var key := NewContext(suite, o.key, o.aad, o.parameters, o.floeIv).messageKey;
      assert key == NewContext(suite, o'.key, o'.aad, o'.parameters, o'.floeIv).messageKey;
      assert key[0] == 1;
      assert o.key == o'.key && info == info';
      InfoInjective(o.parameters, o.floeIv, MESSAGE_KEY_PURPOSE, o.aad, o'.parameters, o'.floeIv, o'.aad);
    }
  }

  /** A header with the fields of one message and the tag of another. */
  function Transplanted(suite: CipherSuite, tagged: Origin, fields: Origin): (r: Bytes)
    requires |fields.floeIv| == FLOE_IV_LENGTH
    ensures |r| == HEADER_LENGTH
  {
    fields.parameters.Encode() + fields.floeIv +
    HeaderTag(suite, tagged.key, tagged.parameters.Encode(), tagged.floeIv, tagged.aad)
  }

  /** Whoever expects `fields` refuses the tag of `tagged`. */
  ghost predicate Refuses(suite: CipherSuite, tagged: Origin, fields: Origin)
    requires |fields.floeIv| == FLOE_IV_LENGTH
  {
    StartContext(suite, fields.key, fields.aad, None, Transplanted(suite, tagged, fields)) == Err(InvalidHeaderTag)
  }

  /** A header tag is bound to the key, the AAD, the parameters and the IV: under the same of all four
      no provider makes a header refused for its tag, and if any one differs some provider does, while
      it still accepts the original header. */
  lemma HeadersSeparate(tagged: Origin, fields: Origin) returns (suite: CipherSuite)
    requires |tagged.floeIv| == |fields.floeIv| == FLOE_IV_LENGTH
    ensures tagged == fields ==> forall other: CipherSuite :: !Refuses(other, tagged, fields)
    ensures tagged != fields ==>
      && Refuses(suite, tagged, fields)
      && StartContext(suite, tagged.key, tagged.aad, None, Header(suite, tagged.key, tagged.aad, tagged.parameters, tagged.floeIv)).Ok?
  {
    hide StartContext, HeaderTag, BigEndian;
    var info := tagged.parameters.Encode() + tagged.floeIv + HEADER_TAG_PURPOSE + tagged.aad;
    MarkedIsLawful(tagged.key, info);
    suite := Marked(tagged.key, info);
    forall other: CipherSuite
      ensures tagged == fields ==> !Refuses(other, tagged, fields)
    {
      TransplantedTag(other, tagged, fields);
    }
    if tagged != fields {
      TagsDiffer(tagged, fields, suite, info);
      TransplantedTag(suite, tagged, tagged);
      TransplantedTag(suite, tagged, fields);
      assert Header(suite, tagged.key, tagged.aad, tagged.parameters, tagged.floeIv) == Transplanted(suite, tagged, tagged);
    }
  }

  /** A transplanted header is refused exactly when the two tags differ. */
  lemma TransplantedTag(suite: CipherSuite, tagged: Origin, fields: Origin)
    requires |tagged.floeIv| == |fields.floeIv| == FLOE_IV_LENGTH
    ensures var result := StartContext(suite, fields.key, fields.aad, None, Transplanted(suite, tagged, fields));
            var tag := HeaderTag(suite, tagged.key, tagged.parameters.Encode(), tagged.floeIv, tagged.aad);
            var expected := HeaderTag(suite, fields.key, fields.parameters.Encode(), fields.floeIv, fields.aad);
      && (tag != expected <==> result == Err(InvalidHeaderTag))
      && (tag == expected && (forall k :: suite.accepts(k)) ==> result.Ok?)
  {
    hide HeaderTag;
    var header := Transplanted(suite, tagged, fields);
    var encoded, tag := fields.parameters.Encode(), HeaderTag(suite, tagged.key, tagged.parameters.Encode(), tagged.floeIv, tagged.aad);
    assert header[..10] == encoded && header[10..42] == fields.floeIv && header[42..] == tag;
    ParametersRoundTrip(fields.parameters);
  }

  lemma TagsDiffer(tagged: Origin, fields: Origin, suite: CipherSuite, info: Bytes)
    requires |tagged.floeIv| == |fields.floeIv| == FLOE_IV_LENGTH && tagged != fields
    requires info == tagged.parameters.Encode() + tagged.floeIv + HEADER_TAG_PURPOSE + tagged.aad
    requires suite == Marked(tagged.key, info)
    ensures HeaderTag(suite, tagged.key, tagged.parameters.Encode(), tagged.floeIv, tagged.aad) !=
            HeaderTag(suite, fields.key, fields.parameters.Encode(), fields.floeIv, fields.aad)
  {
    var info' := fields.parameters.Encode() + fields.floeIv + HEADER_TAG_PURPOSE + fields.aad;
    if tagged.key == fields.key && info == info' {
      InfoInjective(tagged.parameters, tagged.floeIv, HEADER_TAG_PURPOSE, tagged.aad, fields.parameters, fields.floeIv, fields.aad);
      assert false;
    }
    assert HeaderTag(suite, tagged.key, tagged.parameters.Encode(), tagged.floeIv, tagged.aad)[0] == 1;
    assert HeaderTag(suite, fields.key, fields.parameters.Encode(), fields.floeIv, fields.aad)[0] == 0;
  }

  /** Tags and message keys are never derived from the same info, whatever the messages. */
  lemma PurposesSeparate(o: Origin, o': Origin) returns (suite: CipherSuite)
    requires |o.floeIv| == |o'.floeIv| == FLOE_IV_LENGTH
    ensures HeaderTag(suite, o.key, o.parameters.Encode(), o.floeIv, o.aad)[0] !=
            NewContext(suite, o'.key, o'.aad, o'.parameters, o'.floeIv).messageKey[0]
  {
    var info := o.parameters.Encode() + o.floeIv + HEADER_TAG_PURPOSE + o.aad;
    MarkedIsLawful(o.key, info);
    suite := Marked(o.key, info);
    var at := ENCODED_PARAMETERS_LENGTH + FLOE_IV_LENGTH;
    assert info[at] == HEADER_TAG_PURPOSE[0];
    assert (o'.parameters.Encode() + o'.floeIv + MESSAGE_KEY_PURPOSE + o'.aad)[at] == MESSAGE_KEY_PURPOSE[0];
  }
}

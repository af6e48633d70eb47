/** Batches and the type URL side channel of the Protocol Buffers format
    (include/cloudevents/format/protobuf_format.hpp; fuzz/fuzz_protobuf_format.cpp). */
module ProtobufBatch {
  import opened Wrappers
  import opened Arithmetic
  import opened Wire
  import opened Attributes
  import opened JsonDom
  import opened ProtobufDecode
  import opened ProtobufEncode
  import opened ProtobufLaws
  import opened ProtobufRoundTrip
  import opened ProtobufImage

  function Encodings(events: seq<Event>, codec: Codec): seq<bytes> {
    seq(|events|, i requires 0 <= i < |events| => Encode(events[i], codec))
  }

  function Normals(events: seq<Event>, codec: Codec): seq<Event> {
    seq(|events|, i requires 0 <= i < |events| => Normal(events[i], ProtoTypeUrl(events[i]), codec))
  }

  ghost predicate AllValid(events: seq<Event>) {
    forall i :: 0 <= i < |events| ==> ValidEvent(events[i])
  }

  /** Each event can be read back under the limits. */
  ghost predicate BatchWithin(events: seq<Event>, codec: Codec, limits: DecodeOptions) {
    forall i :: 0 <= i < |events| ==> Readable(events[i], codec, limits)
  }

  ghost predicate Readable(e: Event, codec: Codec, limits: DecodeOptions) {
    Encodable(e, codec) && Within(e, ProtoTypeUrl(e), codec, limits)
  }

  lemma {:induction false} BodiesOfBatch(events: seq<Event>, codec: Codec, limit: nat, before: seq<bytes>)
    requires |EncodeBatch(events, codec)| < WORD && |before| + |events| <= limit
    ensures Walk(BatchVisitor(limit), before, EncodeBatch(events, codec)) == Ok(before + Encodings(events, codec))
    decreases |events|
  {
    hide Walk, Encode, PutField;
    if events == [] {
      WalkEnd(BatchVisitor(limit), before);
      assert before + Encodings(events, codec) == before;
    } else {
      var body := Encode(events[0], codec);
      FieldNotEmpty(1, body);
      WalkPut(BatchVisitor(limit), before, 1, body, EncodeBatch(events[1..], codec));
      BodiesOfBatch(events[1..], codec, limit, before + [body]);
      assert before + Encodings(events, codec) == before + [body] + Encodings(events[1..], codec);
    }
  }

  /** A batch of more events than the limit is refused, wherever the walk stands. */
  lemma {:induction false} TooManyBodies(events: seq<Event>, codec: Codec, limit: nat, before: seq<bytes>)
    requires |EncodeBatch(events, codec)| < WORD && |before| <= limit < |before| + |events|
    ensures Walk(BatchVisitor(limit), before, EncodeBatch(events, codec)).Err?
    decreases |events|
  {
    hide Walk, Encode, PutField;
    var body := Encode(events[0], codec);
    FieldNotEmpty(1, body);
    WalkPut(BatchVisitor(limit), before, 1, body, EncodeBatch(events[1..], codec));
    if |before| < limit {
      TooManyBodies(events[1..], codec, limit, before + [body]);
    }
  }

  lemma DecodeAllStep(bodies: seq<bytes>, limits: DecodeOptions)
    requires bodies != []
    ensures var first, rest := Decode(bodies[0], limits), DecodeAll(bodies[1..], limits);
            && (DecodeAll(bodies, limits).Ok? <==> first.Ok? && rest.Ok?)
            && (first.Ok? && rest.Ok? ==> DecodeAll(bodies, limits) == Ok([first.value] + rest.value))
  {
    hide Decode;
  }

  lemma SplitFirst(events: seq<Event>, codec: Codec)
    requires events != []
    ensures Encodings(events, codec)[0] == Encode(events[0], codec)
    ensures Encodings(events, codec)[1..] == Encodings(events[1..], codec)
    ensures Normals(events, codec) == [Normal(events[0], ProtoTypeUrl(events[0]), codec)] + Normals(events[1..], codec)
  {
    hide Encode, Normal, ProtoTypeUrl;
  }

  lemma {:induction false} AllDecode(events: seq<Event>, codec: Codec, limits: DecodeOptions)
    requires AllValid(events) && |EncodeBatch(events, codec)| < WORD
    ensures DecodeAll(Encodings(events, codec), limits).Ok? <==> BatchWithin(events, codec, limits)
    ensures BatchWithin(events, codec, limits) ==> DecodeAll(Encodings(events, codec), limits) == Ok(Normals(events, codec))
    decreases |events|
  {
    hide Encode, Decode, Normal, ValidEvent, Readable, ProtoTypeUrl, PutField;
    if events == [] {
      assert Encodings(events, codec) == [] && Normals(events, codec) == [];
    } else {
      hide Encodings, Normals, DecodeAll, BatchWithin;
      SplitFirst(events, codec);
      WithinSplit(events, codec, limits);
      FieldIsLonger(1, Encode(events[0], codec));
      EachRead(events[0], codec, limits);
      AllDecode(events[1..], codec, limits);
      DecodeAllStep(Encodings(events, codec), limits);
    }
  }

  lemma WithinSplit(events: seq<Event>, codec: Codec, limits: DecodeOptions)
    requires events != []
    ensures BatchWithin(events, codec, limits) <==> Readable(events[0], codec, limits) && BatchWithin(events[1..], codec, limits)
  {
    hide Readable;
    if Readable(events[0], codec, limits) && BatchWithin(events[1..], codec, limits) {
      forall i | 0 <= i < |events|
        ensures Readable(events[i], codec, limits)
      {
        if i > 0 {
          assert events[1..][i - 1] == events[i];
        }
      }
    }
  }

  lemma FieldIsLonger(number: fieldNumber, body: bytes)
    ensures |PutField(number, body)| > |body|
  {
  }

  /** One event of a batch: it decodes exactly when it is readable, and then to its normal form. */
  lemma EachRead(e: Event, codec: Codec, limits: DecodeOptions)
    requires ValidEvent(e) && |Encode(e, codec)| < WORD
    ensures Decode(Encode(e, codec), limits).Ok? <==> Readable(e, codec, limits)
    ensures Readable(e, codec, limits) ==> Decode(Encode(e, codec), limits) == Ok(Normal(e, ProtoTypeUrl(e), codec))
  {
    hide Encode, Decode, Encodable, Within, Normal, ValidEvent, ProtoTypeUrl;
    DecodeOfEncode(e, codec, limits);
  }

  /** A batch decodes exactly when its events are no more than the limit and each can be read back; then it
      decodes to their normal forms, in order. */
  lemma BatchRoundTrip(events: seq<Event>, codec: Codec, limits: DecodeOptions)
    requires AllValid(events) && |EncodeBatch(events, codec)| < WORD
    ensures DecodeBatch(EncodeBatch(events, codec), limits).Ok?
            <==> |events| <= limits.maxBatchEventCount && BatchWithin(events, codec, limits)
    ensures DecodeBatch(EncodeBatch(events, codec), limits).Ok?
            ==> DecodeBatch(EncodeBatch(events, codec), limits) == Ok(Normals(events, codec))
  {
    hide Walk, EncodeBatch, Encodings, Normals, DecodeAll, BatchWithin, AllValid;
    if |events| <= limits.maxBatchEventCount {
      BodiesOfBatch(events, codec, limits.maxBatchEventCount, []);
      assert [] + Encodings(events, codec) == Encodings(events, codec);
      AllDecode(events, codec, limits);
    } else {
      TooManyBodies(events, codec, limits.maxBatchEventCount, []);
    }
  }

  lemma {:induction false} EachDecoded(bodies: seq<bytes>, options: DecodeOptions)
    requires DecodeAll(bodies, options).Ok?
    ensures var events := DecodeAll(bodies, options).value;
            |events| == |bodies| && forall i :: 0 <= i < |bodies| ==> Decode(bodies[i], options) == Ok(events[i])
    decreases |bodies|
  {
    hide Decode;
    if bodies != [] {
      EachDecoded(bodies[1..], options);
    }
  }

  /** A batch that decoded encodes to one that decodes to the same events. */
  lemma DecodedBatchRoundTrip(encoded: bytes, options: DecodeOptions, codec: Codec, limits: DecodeOptions)
    requires DecodeBatch(encoded, options).Ok?
    requires var events := DecodeBatch(encoded, options).value;
             && |EncodeBatch(events, codec)| < WORD && |events| <= limits.maxBatchEventCount
             && forall i :: 0 <= i < |events| ==> |Encode(events[i], codec)| <= limits.maxEncodedSize
    requires options.maxAttributeCount + 2 <= limits.maxAttributeCount
    ensures DecodeBatch(EncodeBatch(DecodeBatch(encoded, options).value, codec), limits) == DecodeBatch(encoded, options)
  {
    hide Walk, EncodeBatch, Decode, Normal, ValidEvent, Encodable, EncodeWith, ProtoTypeUrl, ValuesOf;
    var bodies := BatchBodies(encoded, options).value;
    var events := DecodeBatch(encoded, options).value;
    EachDecoded(bodies, options);
    forall i | 0 <= i < |events|
      ensures ValidEvent(events[i]) && Encodable(events[i], codec)
      ensures Within(events[i], ProtoTypeUrl(events[i]), codec, limits)
      ensures Normals(events, codec)[i] == events[i]
    {
      DecodedIsNormal(bodies[i], options, codec);
    }
    assert Normals(events, codec) == events;
    BatchRoundTrip(events, codec, limits);
  }

  // The side channel

  /** The detailed decode decides as the plain one does and gives the same event. */
  lemma DetailedAgrees(encoded: bytes, options: DecodeOptions)
    ensures DecodeDetailed(encoded, options).Ok? <==> Decode(encoded, options).Ok?
    ensures DecodeDetailed(encoded, options).Ok? ==> Decode(encoded, options) == Ok(DecodeDetailed(encoded, options).value.event)
    ensures DecodeDetailed(encoded, options).Err? ==> Decode(encoded, options) == Err(DecodeDetailed(encoded, options).error)
  {
    hide ScanLimited, BuildEvent;
  }

  /** An event written as `proto_data` under a type URL gives that URL back beside the event. */
  lemma TypeUrlRoundTrip(e: Event, typeUrl: bytes, codec: Codec, options: DecodeOptions)
    requires ValidEvent(e) && EncodeAsAny(e, typeUrl, codec).Ok?
    requires Encodable(e, codec) && Within(e, Some(typeUrl), codec, options)
    ensures DecodeDetailed(EncodeAsAny(e, typeUrl, codec).value, options)
            == Ok(Detailed(Normal(e, Some(typeUrl), codec), if typeUrl == [] then None else Some(typeUrl)))
  {
    hide ValidUriReference, EncodeWith, ScanLimited, BuildEvent, Encodable, Normal, ValidEvent, NormalArms, ValuesOf;
    ScanOfEncoding(e, Some(typeUrl), codec, options);
    BuildOfScan(e, Some(typeUrl), codec);
  }

  /** Two attributes more than the limit are reached: an event without attributes, sent as `proto_data`,
      decodes under a limit of no entries to one with a content type and a schema. */
  lemma TwoMoreAreReached(e: Event, typeUrl: bytes, codec: Codec, options: DecodeOptions)
    requires ValidEvent(e) && e.rest == NO_OPTIONS.(data := e.rest.data) && e.rest.data.BinaryData?
    requires typeUrl != [] && ValidUriReference(typeUrl)
    requires |EncodeWith(e, Some(typeUrl), codec)| <= options.maxEncodedSize && options.maxAttributeCount == 0
    ensures Decode(EncodeWith(e, Some(typeUrl), codec), options) == Ok(Normal(e, Some(typeUrl), codec))
    ensures |ValuesOf(Normal(e, Some(typeUrl), codec).rest)| == 2
  {
    hide ValidUriReference, EncodeWith, Decode, ValidEvent, NameOf, ProtobufMediaType, Normal, ContextValues;
    NothingToEncode(e.rest);
    DecodeOfEncodeWith(e, Some(typeUrl), codec, options);
    TwoFilled(e, typeUrl, codec);
  }

  lemma NothingToEncode(o: Options)
    requires o == NO_OPTIONS.(data := o.data)
    ensures ValuesOf(o) == map[]
  {
    hide NameOf;
  }

  lemma TwoFilled(e: Event, typeUrl: bytes, codec: Codec)
    requires e.rest == NO_OPTIONS.(data := e.rest.data) && e.rest.data.BinaryData? && typeUrl != []
    ensures |ValuesOf(Normal(e, Some(typeUrl), codec).rest)| == 2
  {
    hide ContextValues, ProtobufMediaType;
    TwoValues(Normal(e, Some(typeUrl), codec).rest);
  }

  lemma TwoValues(o: Options)
    requires o.extensions == map[] && o.datacontenttype.Some? && o.dataschema.Some? && o.subject.None? && o.time.None?
    ensures |ValuesOf(o)| == 2
  {
    hide NameOf;
    NamesDiffer(DataContentType, DataSchema);
    assert ValuesOf(o).Keys == {NameOf(DataContentType), NameOf(DataSchema)};
  }
}

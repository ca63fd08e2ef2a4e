/**
 * The two checks the bot makes on an incoming chat message: whether it
 * carries audio to transcribe, and whether fetching that audio needs the
 * bot's bearer token.
 */
module Messages {

  /** A reference to content hosted elsewhere: its media type and location. */
  datatype Attachment = Attachment(contentType: string, contentUrl: string, name: string)

  /** An incoming message: its attachments, in order, and the channel it came from. */
  datatype Message = Message(attachments: seq<Attachment>, source: string)

  /** The media types accepted as audio. */
  const AudioContentTypes: set<string> := {"audio/wav", "application/octet-stream"}

  /** The channels whose attachment URLs are protected by the bot's token. */
  const TokenSources: set<string> := {"skype", "msteams"}

  /** `hasAudioAttachment`: the first attachment, if any, is audio. */
  predicate HasAudioAttachment(m: Message)
    ensures HasAudioAttachment(m) <==>
      |m.attachments| > 0 && m.attachments[0].contentType in AudioContentTypes
  {
    |m.attachments| > 0 &&
      (m.attachments[0].contentType == "audio/wav" ||
       m.attachments[0].contentType == "application/octet-stream")
  }

  /** `checkRequiresToken`: the message comes from Skype or Microsoft Teams. */
  predicate CheckRequiresToken(m: Message)
    ensures CheckRequiresToken(m) <==> m.source in TokenSources
  {
    m.source == "skype" || m.source == "msteams"
  }

  /** A message without attachments has no audio. */
  lemma NoAttachmentNoAudio(m: Message)
    requires m.attachments == []
    ensures !HasAudioAttachment(m)
  {
  }

  /** Only the first attachment is inspected: whatever follows it, and the
      channel the message came from, make no difference. */
  lemma OnlyFirstAttachmentDecides(first: Attachment, rest: seq<Attachment>, source: string)
    ensures HasAudioAttachment(Message([first] + rest, source)) <==> first.contentType in AudioContentTypes
  {
  }

  /** An audio attachment after a non-audio first one is not seen. */
  lemma LaterAudioIgnored(m: Message, i: nat)
    requires 0 < i < |m.attachments|
    requires m.attachments[i].contentType == "audio/wav"
    requires m.attachments[0].contentType !in AudioContentTypes
    ensures !HasAudioAttachment(m)
  {
  }

  /** The comparison is exact: other spellings of an audio type do not count. */
  lemma AudioTypeIsExact(m: Message)
    requires |m.attachments| > 0
    requires m.attachments[0].contentType in {"audio/WAV", "audio/wav; codecs=1", "audio/x-wav"}
    ensures !HasAudioAttachment(m)
  {
  }

  /** The channel comparison is exact and case-sensitive. */
  lemma TokenSourceIsExact(m: Message)
    requires m.source in {"Skype", "MSTeams", "teams", "webchat", "emulator", ""}
    ensures !CheckRequiresToken(m)
  {
  }
}

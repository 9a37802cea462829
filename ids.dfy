/** Opaque identifiers. Their bit layout is never inspected by the bot: they are
    compared, copied and passed to code outside the model. */
module Ids {

  /** A Minecraft player UUID (`uuid_mc::PlayerUuid` / `uuid::Uuid`), a 128-bit value. */
  datatype Uuid = Uuid(bits: nat)

  /** A Discord channel snowflake. */
  datatype ChannelId = ChannelId(id: nat)

  /** A Discord message snowflake. */
  datatype MessageId = MessageId(id: nat)
}

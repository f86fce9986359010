/**
 * The persisted records of the bot, as values: an offer with its disk
 * groups, a subscriber with its search settings, the offer/subscriber
 * relation and the CPU reference rows.
 */
module Models {
  import opened Wrappers

  type OfferId = int
  type ChatId = int

  /** A point in time; only compared for equality and copied around. */
  datatype Timestamp = Timestamp(ticks: int)

  /** The disk technologies an offer lists. */
  datatype DiskType = Hdd | Sata | Nvme

  /**
   * A key of the upstream `serverDiskData` object: the `general` category,
   * which repeats the other ones, or one disk technology.
   */
  datatype DiskCategory = General | Kind(diskType: DiskType)

  /** One row of `offer_disk`: `amount` disks of one type and size (GB). */
  datatype DiskGroup = DiskGroup(diskType: DiskType, size: nat, amount: nat)

  /** One row of `offer`. `price` is in cents, the IPv4 fee included. */
  datatype Offer = Offer(
    id: OfferId,
    cpu: string,
    ram: int,
    datacenter: Option<string>,
    price: int,
    ecc: bool,
    inic: bool,
    hwr: bool,
    ipv4: bool,
    deactivated: bool,
    disks: seq<DiskGroup>,
    lastUpdate: Timestamp)

  /** One row of `cpu`: benchmark data, keyed by the CPU's name. */
  datatype Cpu = Cpu(
    name: string,
    threads: int,
    releaseDate: int,
    multiThreadRating: int,
    singleThreadRating: int)

  /**
   * One row of `subscriber`. `raid` and `datacenter` hold the strings the
   * `/set` command stores (`None` for no value); `price` is in whole euros.
   */
  datatype Subscriber = Subscriber(
    chatId: ChatId,
    active: bool,
    authorized: bool,
    hddCount: int,
    hddSize: int,
    raid: Option<string>,
    afterRaid: int,
    price: int,
    cpuRating: int,
    ram: int,
    datacenter: Option<string>,
    ecc: bool,
    inic: bool,
    hwr: bool,
    ipv4: bool,
    threads: int,
    releaseDate: int,
    multiRating: int,
    singleRating: int)

  /**
   * One row of `offer_subscriber`: the offer matches the subscriber;
   * `notified` once it was rendered for them, `isNew` until its price changed.
   */
  datatype Relation = Relation(offer: OfferId, subscriber: ChatId, notified: bool, isNew: bool)

  /** One record of the upstream batch, already decoded from JSON. */
  datatype IncomingOffer = IncomingOffer(
    key: OfferId,
    cpu: string,
    ramSize: int,
    datacenter: Option<string>,
    diskData: seq<(DiskCategory, seq<nat>)>,
    isEcc: bool,
    specials: seq<string>,
    price: int)
}

/**
 * The `/set <name> <value>` command: a chain of guards that either rejects
 * the command, leaving the subscriber as it is, or stores one setting.
 */
module Commands {
  import opened Wrappers
  import opened Models
  import opened StringOps

  /** The settings a subscriber may change. */
  datatype Field = HddCount | HddSize | Raid | AfterRaid | Datacenter | CpuRating | Ram | Price | Ecc | Inic | Hwr

  /** The name of a setting in the command. */
  function FieldName(f: Field): string
  {
    match f
    case HddCount => "hdd_count"
    case HddSize => "hdd_size"
    case Raid => "raid"
    case AfterRaid => "after_raid"
    case Datacenter => "datacenter"
    case CpuRating => "cpu_rating"
    case Ram => "ram"
    case Price => "price"
    case Ecc => "ecc"
    case Inic => "inic"
    case Hwr => "hwr"
  }

  /** The accepted names, in the order the command lists them. */
  const FieldNames: seq<string> :=
    ["hdd_count", "hdd_size", "raid", "after_raid", "datacenter", "cpu_rating", "ram", "price", "ecc", "inic", "hwr"]

  /** The setting a name stands for, if any. */
  function FieldOf(name: string): Option<Field>
  {
    if name == "hdd_count" then Some(HddCount)
    else if name == "hdd_size" then Some(HddSize)
    else if name == "raid" then Some(Raid)
    else if name == "after_raid" then Some(AfterRaid)
    else if name == "datacenter" then Some(Datacenter)
    else if name == "cpu_rating" then Some(CpuRating)
    else if name == "ram" then Some(Ram)
    else if name == "price" then Some(Price)
    else if name == "ecc" then Some(Ecc)
    else if name == "inic" then Some(Inic)
    else if name == "hwr" then Some(Hwr)
    else None
  }

  /** The value of a setting: a number, a flag, or an optional string. */
  datatype FieldValue = IntValue(n: int) | BoolValue(b: bool) | TextValue(s: Option<string>)

  predicate IsBoolField(f: Field)
  {
    f == Ecc || f == Inic || f == Hwr
  }

  predicate IsTextField(f: Field)
  {
    f == Raid || f == Datacenter
  }

  /** The kind of value a setting holds. */
  predicate Fits(f: Field, v: FieldValue)
  {
    if IsBoolField(f) then v.BoolValue? else if IsTextField(f) then v.TextValue? else v.IntValue?
  }

  /** The current value of a setting. */
  function Get(sub: Subscriber, f: Field): (v: FieldValue)
    ensures Fits(f, v)
  {
    match f
    case HddCount => IntValue(sub.hddCount)
    case HddSize => IntValue(sub.hddSize)
    case Raid => TextValue(sub.raid)
    case AfterRaid => IntValue(sub.afterRaid)
    case Datacenter => TextValue(sub.datacenter)
    case CpuRating => IntValue(sub.cpuRating)
    case Ram => IntValue(sub.ram)
    case Price => IntValue(sub.price)
    case Ecc => BoolValue(sub.ecc)
    case Inic => BoolValue(sub.inic)
    case Hwr => BoolValue(sub.hwr)
  }

  /** `setattr(subscriber, name, value)`. */
  function Assign(sub: Subscriber, f: Field, v: FieldValue): Subscriber
    requires Fits(f, v)
  {
    match f
    case HddCount => sub.(hddCount := v.n)
    case HddSize => sub.(hddSize := v.n)
    case Raid => sub.(raid := v.s)
    case AfterRaid => sub.(afterRaid := v.n)
    case Datacenter => sub.(datacenter := v.s)
    case CpuRating => sub.(cpuRating := v.n)
    case Ram => sub.(ram := v.n)
    case Price => sub.(price := v.n)
    case Ecc => sub.(ecc := v.b)
    case Inic => sub.(inic := v.b)
    case Hwr => sub.(hwr := v.b)
  }

  // ---------------------------------------------------------------------
  // Python's comparison chaining in the RAID guard

  /** The two kinds of operand the RAID guard compares. */
  datatype PyValue = PyStr(s: string) | PyInt(i: int)

  /** Python's `==`: values of different types are never equal. */
  predicate PyEq(a: PyValue, b: PyValue)
  {
    match (a, b)
    case (PyStr(x), PyStr(y)) => x == y
    case (PyInt(x), PyInt(y)) => x == y
    case _ => false
  }

  /**
   * The guard `value == "raid5" == hdd_count < 3 or value == "raid6" ==
   * hdd_count < 4`: a chain `a == b == c < d` means `a == b and b == c and
   * c < d`, so it compares the string `"raid5"` with the integer count.
   */
  predicate ChainedRaidCheck(value: string, hddCount: int)
  {
    || (PyEq(PyStr(value), PyStr("raid5")) && PyEq(PyStr("raid5"), PyInt(hddCount)) && hddCount < 3)
    || (PyEq(PyStr(value), PyStr("raid6")) && PyEq(PyStr("raid6"), PyInt(hddCount)) && hddCount < 4)
  }

  // ---------------------------------------------------------------------
  // The command

  /** The reply sent to the chat. */
  datatype Reply =
    | WrongParameterCount
    | UnknownParameter
    | InvalidRaid
    | RaidNeedsMoreDisks
    | InvalidDatacenter
    | NotAnInt
    | NotABoolean
    | Changed(field: Field, value: FieldValue)

  /** The subscriber after the command, and the reply. */
  datatype Outcome = Outcome(subscriber: Subscriber, reply: Reply)

  /** The tokens after the command word. */
  function Parameters(text: string): seq<string>
  {
    SplitOn(text, ' ')[1..]
  }

  function Store(sub: Subscriber, f: Field, v: FieldValue): Outcome
    requires Fits(f, v)
  {
    Outcome(Assign(sub, f, v), Changed(f, v))
  }

  /** `set_parameter` on the message text `text`. */
  function SetParameter(sub: Subscriber, text: string): Outcome
  {
    var params := Parameters(text);
    if |params| != 2 then Outcome(sub, WrongParameterCount)
    else
      var name := params[0];
      var value := params[1];
      match FieldOf(name)
      case None => Outcome(sub, UnknownParameter)
      case Some(f) =>
        if f == Raid then
          if value !in ["raid5", "raid6", "None"] then Outcome(sub, InvalidRaid)
          else if ChainedRaidCheck(value, sub.hddCount) then Outcome(sub, RaidNeedsMoreDisks)
          else Store(sub, f, TextValue(if value == "None" then None else Some(value)))
        else if f == Datacenter then
          if value !in ["NBG", "FSN", "HEL", "None"] then Outcome(sub, InvalidDatacenter)
          else Store(sub, f, TextValue(if value == "None" then None else Some(value)))
        else
          match ParseInt(value)
          case None => Outcome(sub, NotAnInt)
          case Some(n) =>
            if IsBoolField(f) then
              if n != 0 && n != 1 then Outcome(sub, NotABoolean)
              else Store(sub, f, BoolValue(n == 1))
            else Store(sub, f, IntValue(n))
  }

  // ---------------------------------------------------------------------
  // Properties

  /** The names and the settings correspond one to one. */
  lemma FieldNamesExact(name: string, f: Field)
    ensures FieldOf(FieldName(f)) == Some(f)
    ensures FieldOf(name).Some? <==> name in FieldNames
    ensures FieldOf(name) == Some(f) ==> FieldName(f) == name
  {
  }

  /** The guard on RAID and `hdd_count` never holds, whatever the count. */
  lemma RaidGuardNeverFires(value: string, hddCount: int)
    ensures !ChainedRaidCheck(value, hddCount)
  {
  }

  /**
   * A command is refused for its token count exactly when the text does not
   * hold exactly two spaces, and then nothing changes.
   */
  lemma TokenCount(sub: Subscriber, text: string)
    ensures SetParameter(sub, text).reply == WrongParameterCount <==> Occurrences(text, ' ') != 2
    ensures Occurrences(text, ' ') != 2 ==> SetParameter(sub, text).subscriber == sub
  {
    SplitCount(text, ' ');
    if |Parameters(text)| == 2 {
      CountAccepted(sub, text);
    }
  }

  /** With two parameters, no branch gives the token-count reply. */
  lemma CountAccepted(sub: Subscriber, text: string)
    requires |Parameters(text)| == 2
    ensures SetParameter(sub, text).reply != WrongParameterCount
  {
    var value := Parameters(text)[1];
    match FieldOf(Parameters(text)[0])
    case None =>
    case Some(f) =>
      if f != Raid && f != Datacenter {
        match ParseInt(value)
        case None =>
        case Some(n) =>
      }
  }

  /** A name outside the list is refused and nothing changes. */
  lemma UnknownNameRejected(sub: Subscriber, text: string)
    requires |Parameters(text)| == 2 && Parameters(text)[0] !in FieldNames
    ensures SetParameter(sub, text) == Outcome(sub, UnknownParameter)
  {
    FieldNamesExact(Parameters(text)[0], Raid);
  }

  /**
   * `raid` takes `raid5`, `raid6` or `None` (stored as no value) whatever
   * `hdd_count` is, and refuses anything else.
   */
  lemma RaidValues(sub: Subscriber, text: string)
    requires |Parameters(text)| == 2 && Parameters(text)[0] == "raid"
    ensures var value := Parameters(text)[1];
      var out := SetParameter(sub, text);
      && (value in ["raid5", "raid6", "None"] ==>
            out.reply.Changed? && out.subscriber.raid == (if value == "None" then None else Some(value)))
      && (value !in ["raid5", "raid6", "None"] ==> out == Outcome(sub, InvalidRaid))
  {
    RaidGuardNeverFires(Parameters(text)[1], sub.hddCount);
  }

  /** `datacenter` takes `NBG`, `FSN`, `HEL` or `None` (stored as no value), and refuses anything else. */
  lemma DatacenterValues(sub: Subscriber, text: string)
    requires |Parameters(text)| == 2 && Parameters(text)[0] == "datacenter"
    ensures var value := Parameters(text)[1];
      var out := SetParameter(sub, text);
      && (value in ["NBG", "FSN", "HEL", "None"] ==>
            out.reply.Changed? && out.subscriber.datacenter == (if value == "None" then None else Some(value)))
      && (value !in ["NBG", "FSN", "HEL", "None"] ==> out == Outcome(sub, InvalidDatacenter))
  {
  }

  /** A numeric setting takes exactly the values `int()` accepts, and stores the number. */
  lemma IntegerFields(sub: Subscriber, text: string, f: Field)
    requires |Parameters(text)| == 2 && FieldOf(Parameters(text)[0]) == Some(f)
    requires !IsTextField(f) && !IsBoolField(f)
    ensures var out := SetParameter(sub, text);
      && (ParseInt(Parameters(text)[1]).None? ==> out == Outcome(sub, NotAnInt))
      && (ParseInt(Parameters(text)[1]).Some? ==>
            out.reply.Changed? && Get(out.subscriber, f) == IntValue(ParseInt(Parameters(text)[1]).value))
  {
    match ParseInt(Parameters(text)[1]) {
      case None =>
      case Some(n) =>
        AssignFrame(sub, f, IntValue(n));
    }
  }

  /** `ecc`, `inic` and `hwr` take the integers 0 and 1 only, stored as false and true. */
  lemma BooleanFields(sub: Subscriber, text: string, f: Field)
    requires |Parameters(text)| == 2 && FieldOf(Parameters(text)[0]) == Some(f) && IsBoolField(f)
    ensures var out := SetParameter(sub, text);
      var parsed := ParseInt(Parameters(text)[1]);
      && (parsed.None? ==> out == Outcome(sub, NotAnInt))
      && (parsed.Some? && parsed.value != 0 && parsed.value != 1 ==> out == Outcome(sub, NotABoolean))
      && (parsed == Some(0) || parsed == Some(1) ==>
            out.reply.Changed? && Get(out.subscriber, f) == BoolValue(parsed == Some(1)))
  {
    var out := SetParameter(sub, text);
    assert f != Raid && f != Datacenter;
    match ParseInt(Parameters(text)[1]) {
      case None =>
        assert out == Outcome(sub, NotAnInt);
      case Some(n) =>
        if n == 0 || n == 1 {
          assert out == Store(sub, f, BoolValue(n == 1));
          AssignFrame(sub, f, BoolValue(n == 1));
        } else {
          assert out == Outcome(sub, NotABoolean);
        }
    }
  }

  /** Two subscribers that agree everywhere except possibly on setting `f`. */
  predicate SameExcept(a: Subscriber, b: Subscriber, f: Field)
  {
    && (forall g: Field :: g != f ==> Get(a, g) == Get(b, g))
    && a.chatId == b.chatId && a.active == b.active && a.authorized == b.authorized && a.ipv4 == b.ipv4
    && a.threads == b.threads && a.releaseDate == b.releaseDate
    && a.multiRating == b.multiRating && a.singleRating == b.singleRating
  }

  /**
   * A refused command leaves the subscriber as it was; an accepted one
   * changes the named setting to the reported value and nothing else.
   */
  lemma FrameCondition(sub: Subscriber, text: string)
    ensures var out := SetParameter(sub, text);
      && (!out.reply.Changed? ==> out.subscriber == sub)
      && (out.reply.Changed? ==>
            && |Parameters(text)| == 2 && FieldOf(Parameters(text)[0]) == Some(out.reply.field)
            && Get(out.subscriber, out.reply.field) == out.reply.value
            && SameExcept(out.subscriber, sub, out.reply.field))
  {
    var out := SetParameter(sub, text);
    var params := Parameters(text);
    if |params| == 2 {
      var value := params[1];
      match FieldOf(params[0]) {
        case None =>
          assert out == Outcome(sub, UnknownParameter);
        case Some(f) =>
          if f == Raid || f == Datacenter {
            var v := TextValue(if value == "None" then None else Some(value));
            assert out == Store(sub, f, v) || out.subscriber == sub;
            AssignFrame(sub, f, v);
          } else {
            match ParseInt(value) {
              case None =>
                assert out == Outcome(sub, NotAnInt);
              case Some(n) =>
                var v := if IsBoolField(f) then BoolValue(n == 1) else IntValue(n);
                assert out == Store(sub, f, v) || out.subscriber == sub;
                AssignFrame(sub, f, v);
            }
          }
      }
    }
  }

  /** Storing a value changes that setting and nothing else. */
  lemma AssignFrame(sub: Subscriber, f: Field, v: FieldValue)
    requires Fits(f, v)
    ensures Get(Assign(sub, f, v), f) == v
    ensures SameExcept(Assign(sub, f, v), sub, f)
  {
    match f {
      case HddCount =>
      case HddSize =>
      case Raid =>
      case AfterRaid =>
      case Datacenter =>
      case CpuRating =>
      case Ram =>
      case Price =>
      case Ecc =>
      case Inic =>
      case Hwr =>
    }
  }
}

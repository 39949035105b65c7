/** Authorization and number resolution shared by the three message handlers:
    the admin/assignment guard, the "+"-toggled variant set of a number, and
    the SQL `.filter(...).first()` lookups, read as "first row in table order". */
module Access {
  import opened PyStr
  import opened Records

  /** `(u.role or "").lower() == "admin"`. */
  predicate IsAdmin(u: User): (r: bool)
    ensures r <==> u.role.Some? && |u.role.value| == 5
                   && forall k :: 0 <= k < 5 ==> LowerChar(u.role.value[k]) == "admin"[k]
  {
    AsciiLower(OrEmpty(u.role)) == "admin"
  }

  /** The guard applied before every read or write on a number's messages. */
  predicate CanViewNumber(u: User, number: Option<PhoneNumber>): (r: bool)
    ensures IsAdmin(u) ==> r
    ensures !IsAdmin(u) && number.None? ==> !r
    ensures !IsAdmin(u) && number.Some? ==> (r <==> number.value.assignedUserId == Some(u.id))
  {
    if IsAdmin(u) then true
    else if number.None? then false
    else number.value.assignedUserId == Some(u.id)
  }

  /** Drop a leading "+" if there is one, otherwise add one. */
  function TogglePlus(n: string): (r: string)
    ensures StartsWith(n, "+") ==> "+" + r == n
    ensures !StartsWith(n, "+") ==> r == "+" + n
    ensures |r| != |n|
  {
    StartsWithSlice(n, "+");
    if StartsWith(n, "+") then n[1..] else "+" + n
  }

  /** Toggling twice is the identity unless the number starts with "++". */
  lemma TogglePlusInvolutive(n: string)
    requires !StartsWith(n, "++")
    ensures TogglePlus(TogglePlus(n)) == n
  {
    StartsWithSlice(n, "+");
    StartsWithSlice(n, "++");
    if StartsWith(n, "+") {
      assert "+" + n[1..] == n;
      StartsWithSlice(n[1..], "+");
    } else {
      StartsWithConcat("+", n);
      assert ("+" + n)[1..] == n;
    }
  }

  /** The normalised number and its "+"-toggled twin: two strings that differ
      by exactly one leading "+". */
  function NumberVariants(normalize: string -> string, v: string): (r: set<string>)
    ensures normalize(v) in r && TogglePlus(normalize(v)) in r
    ensures |r| == 2
    ensures forall x, y :: x in r && y in r && x != y ==> "+" + x == y || "+" + y == x
  {
    var n := normalize(v);
    {n, TogglePlus(n)}
  }

  /** The variant set as `list_messages` builds it inline: start from the
      normalised number and add its "+"-toggled form. */
  function InlineVariants(normalize: string -> string, v: string): (r: set<string>)
    ensures r == NumberVariants(normalize, v)
  {
    var n := normalize(v);
    var variants := {n};
    StartsWithSlice(n, "+");
    if StartsWith(n, "+") then variants + {n[1..]} else variants + {"+" + n}
  }

  /** Index of the first number row whose `twilio_number` is in `variants`. */
  function FirstNumberIndex(numbers: seq<PhoneNumber>, variants: set<string>): (r: Option<nat>)
    ensures r.Some? ==> r.value < |numbers| && numbers[r.value].twilioNumber in variants
    ensures forall j :: 0 <= j < |numbers| && (r.None? || j < r.value)
                        ==> numbers[j].twilioNumber !in variants
  {
    if numbers == [] then None
    else if numbers[0].twilioNumber in variants then Some(0)
    else match FirstNumberIndex(numbers[1..], variants)
      case None => None
      case Some(k) => Some(k + 1)
  }

  /** The number that owns a message, or the one a path parameter names. */
  function OwningNumber(numbers: seq<PhoneNumber>, variants: set<string>): (r: Option<PhoneNumber>)
    ensures r.None? <==> forall j :: 0 <= j < |numbers| ==> numbers[j].twilioNumber !in variants
    ensures r.Some? ==> r.value in numbers && r.value.twilioNumber in variants
    ensures r.Some? ==> exists k :: 0 <= k < |numbers| && numbers[k] == r.value
                          && forall j :: 0 <= j < k ==> numbers[j].twilioNumber !in variants
  {
    match FirstNumberIndex(numbers, variants)
    case None => None
    case Some(k) => Some(numbers[k])
  }

  /** Index of the first message row with the given id. */
  function FirstMessageIndex(messages: seq<Message>, id: int): (r: Option<nat>)
    ensures r.Some? ==> r.value < |messages| && messages[r.value].id == id
    ensures forall j :: 0 <= j < |messages| && (r.None? || j < r.value) ==> messages[j].id != id
  {
    if messages == [] then None
    else if messages[0].id == id then Some(0)
    else match FirstMessageIndex(messages[1..], id)
      case None => None
      case Some(k) => Some(k + 1)
  }
}

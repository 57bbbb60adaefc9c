/** The appointment-booking and dashboard widgets of assets/js/main.js
    (`setupAppointmentBooking`, `setupDashboard` and their helpers): a
    hard-coded time-slot availability, exclusive selection of a slot or a
    sidebar tab, the fixed price table, and the status-badge colours. */
module Booking {
  import opened Wrappers
  import opened Dom
  import opened JsText

  // ===== Time slots =====

  /** The slots `loadAvailableTimeSlots` treats as free, whatever the date. */
  const AvailableSlots: seq<string> := ["09:00", "10:00", "11:00", "14:00", "15:00", "16:00", "17:00"]

  const Disabled: string := "disabled"
  const Selected: string := "selected"

  /** The inline style `loadAvailableTimeSlots` gives a slot. */
  function SlotStyle(style: map<string, string>, available: bool): map<string, string>
  {
    if available then style["pointer-events" := "auto"]["opacity" := "1"]
    else style["pointer-events" := "none"]["opacity" := "0.5"]
  }

  /** An available slot is clickable and opaque, an unavailable one
      unclickable and half transparent; no other style property changes. */
  lemma SlotStyleMeaning(style: map<string, string>, available: bool)
    ensures SlotStyle(style, available).Keys == style.Keys + {"pointer-events", "opacity"}
    ensures SlotStyle(style, available)["pointer-events"] == (if available then "auto" else "none")
    ensures SlotStyle(style, available)["opacity"] == (if available then "1" else "0.5")
    ensures forall k :: k in style && k != "pointer-events" && k != "opacity" ==> SlotStyle(style, available)[k] == style[k]
  {
  }

  /** Whether a slot whose text is `text` is offered: its trimmed text is one
      of the available times. */
  predicate SlotAvailable(text: string) {
    Includes(AvailableSlots, Trim(text))
  }

  /** `Array.prototype.includes` on a list of strings, written as the search
      it performs. */
  predicate Includes(list: seq<string>, t: string)
  {
    list != [] && (list[0] == t || Includes(list[1..], t))
  }

  /** The search finds exactly the members of the list. */
  lemma {:induction false} IncludesIsMembership(list: seq<string>, t: string)
    ensures Includes(list, t) <==> t in list
  {
    if list != [] {
      IncludesIsMembership(list[1..], t);
      assert list == [list[0]] + list[1..];
    }
  }

  lemma SlotStyleIdempotent(style: map<string, string>, available: bool)
    ensures SlotStyle(SlotStyle(style, available), available) == SlotStyle(style, available)
  {
  }

  /** `loadAvailableTimeSlots`: a slot is marked disabled exactly when its
      trimmed text is not an available time; the date plays no part. */
  method LoadAvailableTimeSlots(slots: seq<Element>, date: string)
    modifies slots
    ensures forall e :: e in slots ==> SlotRefreshed(e)
    ensures forall e :: e in slots ==> (Disabled in e.classes <==> !SlotAvailable(e.content))
  {
    var i := 0;
    while i < |slots|
      invariant 0 <= i <= |slots|
      invariant forall e :: e in slots[..i] ==> SlotRefreshed(e)
      invariant forall e :: e in slots && e !in slots[..i] ==> unchanged(e)
    {
      var slot := slots[i];
      label Before:
      RefreshSlot(slot);
      assert SlotRefreshed(slot) by {
        if slot in slots[..i] {
          SlotStyleIdempotent(old(slot.style), SlotAvailable(slot.content));
          WithClassIdempotent(old(slot.classes), Disabled, !SlotAvailable(slot.content));
        }
      }
      assert slots[..i + 1] == slots[..i] + [slot];
      i := i + 1;
    }
    assert slots[..i] == slots;
  }

  /** What `loadAvailableTimeSlots` leaves in one slot, compared with the
      slot before the call: the same text, `disabled` exactly when the text is
      not an available time and no other class changed, and the slot's
      clickability and opacity set to match. */
  twostate predicate SlotRefreshed(e: Element)
    reads e
  {
    && e.content == old(e.content)
    && e.classes == WithClass(old(e.classes), Disabled, !SlotAvailable(e.content))
    && e.style == SlotStyle(old(e.style), SlotAvailable(e.content))
  }

  /** The body of the loop in `loadAvailableTimeSlots`, for one slot. */
  method RefreshSlot(slot: Element)
    modifies slot
    ensures SlotRefreshed(slot)
  {
    var available := SlotAvailable(slot.content);
    if available {
      slot.classes := slot.classes - {Disabled};
    } else {
      slot.classes := slot.classes + {Disabled};
    }
    slot.style := SlotStyle(slot.style, available);
  }

  /** A click on a time slot: it becomes the only selected one. */
  method ClickTimeSlot(slots: seq<Element>, clicked: Element)
    requires clicked in slots
    modifies slots
    ensures forall e :: e in slots ==> (Selected in e.classes <==> e == clicked)
    ensures forall e :: e in slots ==> e.classes - {Selected} == old(e.classes) - {Selected}
    ensures forall e :: e in slots ==> e.style == old(e.style) && e.content == old(e.content)
  {
    SelectOnly(slots, clicked, Selected);
  }

  // ===== Prices =====

  /** The price table of `updatePricingDisplay`, in dollars; a closed table. */
  const Prices: map<string, nat> := map[
    "manicure" := 45,
    "pedicure" := 55,
    "gel-nails" := 65,
    "nail-art" := 75,
    "acrylic" := 85
  ]

  /** The text shown for a service: a dollar sign and the price in decimal,
      or nothing for a service the table does not know (every listed price is
      non-zero, so the source's truthiness test is a key test). */
  function PriceLabel(serviceId: string): (text: Option<string>)
    ensures text.Some? <==> serviceId in Prices
    ensures text.Some? ==> |text.value| >= 2 && text.value[0] == '$'
    ensures text.Some? ==> forall i :: 1 <= i < |text.value| ==> IsDigit(text.value[i])
  {
    if serviceId in Prices && Prices[serviceId] != 0 then Some("$" + NatToString(Prices[serviceId])) else None
  }

  /** The label reads back as the table's price. */
  lemma {:induction false} PriceLabelReadsBack(serviceId: string)
    requires serviceId in Prices
    ensures PriceLabel(serviceId).Some?
    ensures DigitsValue(PriceLabel(serviceId).value[1..]) == Prices[serviceId]
  {
    var shown := PriceLabel(serviceId).value;
    assert shown[1..] == NatToString(Prices[serviceId]);
    NatToStringRoundTrip(Prices[serviceId]);
  }

  /** Gel nails are shown at $65, and a service the studio does not offer
      shows nothing. */
  lemma PriceExamples()
    ensures PriceLabel("gel-nails") == Some("$65")
    ensures PriceLabel("waxing") == None
  {
    assert DigitChar(6) == '6' && DigitChar(5) == '5';
    assert NatToString(6) == "6";
    assert NatToString(65) == NatToString(6) + [DigitChar(5)] == "65";
    assert Prices["gel-nails"] == 65;
    assert "$" + "65" == "$65";
  }

  /** `updatePricingDisplay`: when the price element exists and the service
      is known, the element shows the service's label; otherwise nothing
      changes. */
  method UpdatePricingDisplay(display: Element?, serviceId: string)
    modifies display
    ensures display != null && PriceLabel(serviceId).Some? ==> display.content == PriceLabel(serviceId).value
    ensures display != null && PriceLabel(serviceId).None? ==> display.content == old(display.content)
    ensures display != null ==> display.classes == old(display.classes) && display.style == old(display.style)
  {
    var shown := PriceLabel(serviceId);
    if display != null && shown.Some? {
      display.content := shown.value;
    }
  }

  // ===== Dashboard =====

  /** The placeholder `loadDashboardPage` puts in the main region. */
  const Spinner: string := "<div class=\"spinner\"></div>"

  /** A click on a sidebar link: it becomes the only active link, and the
      main region, when there is one, shows the loading placeholder. */
  method ClickSidebarLink(links: seq<Element>, clicked: Element, main: Element?)
    requires clicked in links
    modifies links, main
    ensures forall e :: e in links ==> (Active in e.classes <==> e == clicked)
    ensures forall e :: e in links ==> e.classes - {Active} == old(e.classes) - {Active}
    ensures main != null ==> main.content == Spinner
    ensures forall e :: e in links && e != main ==> e.content == old(e.content)
    ensures forall e :: e in links ==> e.style == old(e.style)
    ensures main != null ==> main.style == old(main.style)
    ensures main != null && main !in links ==> main.classes == old(main.classes)
  {
    SelectOnly(links, clicked, Active);
    if main != null {
      main.content := Spinner;
    }
  }

  const Green: string := "#27ae60"
  const Orange: string := "#f39c12"
  const Red: string := "#e74c3c"
  const Grey: string := "#95a5a6"

  /** The badge colour of an appointment status. */
  function StatusColour(status: string): (colour: string)
    ensures status == "confirmed" ==> colour == Green
    ensures status == "pending" ==> colour == Orange
    ensures status == "cancelled" ==> colour == Red
  {
    match status
    case "confirmed" => Green
    case "pending" => Orange
    case "cancelled" => Red
    case _ => Grey
  }

  /** The three known statuses get three different colours, and every other
      status, the empty one included, falls back to grey. */
  lemma StatusColourDistinguishes(s: string, t: string)
    ensures StatusColour(s) != Grey <==> s in {"confirmed", "pending", "cancelled"}
    ensures StatusColour(s) == StatusColour(t) && StatusColour(s) != Grey ==> s == t
  {
  }

  /** `updateAppointmentStatus`: the badge's class list becomes exactly the
      badge class and the status class, and its background the status's
      colour. */
  method UpdateAppointmentStatus(badge: Element, status: string)
    modifies badge
    ensures badge.classes == {"status-badge", "status-" + status}
    ensures badge.style == old(badge.style)["background" := StatusColour(status)]
    ensures badge.content == old(badge.content)
  {
    badge.classes := {"status-badge", "status-" + status};
    badge.style := badge.style["background" := StatusColour(status)];
  }
}

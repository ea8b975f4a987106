/**
 * The sensor client's side of the exchange: the reply "humi.led.buz" is
 * split on '.', and the three codes drive four indicator flags (the red,
 * green and blue LEDs and the humidifier) through a small state machine.
 */
module Client {
  import opened Options
  import opened CStrings
  import opened Decision

  /**
   * The reply split with strtok on '.', each field read as an integer. With
   * fewer than three fields strtok returns NULL and atoi dereferences it: the
   * client faults, modelled as None.
   */
  function ParseReply(reply: string): (c: Option<Codes>)
    ensures c.Some? <==> |Tokens(reply, '.')| >= 3
  {
    var ts := Tokens(reply, '.');
    if |ts| < 3 then None
    else Some(Codes(Atoi(ts[0]), Atoi(ts[1]), Atoi(ts[2])))
  }

  /** Nothing sprintf("%d") writes contains a '.'. */
  lemma NoDotIn(n: int)
    ensures IntToString(n) != [] && '.' !in IntToString(n)
  {
    var s := IntToString(n);
    assert forall k :: 0 <= k < |s| ==> s[k] != '.';
  }

  /** The client reads back every reply written as "%d.%d.%d". */
  lemma ParseRender(c: Codes)
    ensures ParseReply(Render(c)) == Some(c)
  {
    NoDotIn(c.humi);
    NoDotIn(c.led);
    NoDotIn(c.buz);
    TokensOfJoin([IntToString(c.humi), IntToString(c.led), IntToString(c.buz)], '.');
    AtoiOfIntToString(c.humi);
    AtoiOfIntToString(c.led);
    AtoiOfIntToString(c.buz);
  }

  /** The three replies of the server parse to (1,0,0), (0,1,0) and (0,2,1). */
  lemma ParseServerCodes()
    ensures ParseReply(DRY) == Some(Codes(ON, RED_LED, OFF))
    ensures ParseReply(IDEAL) == Some(Codes(OFF, GREEN_LED, OFF))
    ensures ParseReply(HUMID) == Some(Codes(OFF, BLUE_LED, ON))
  {
    WriteActRendersIntended(0, 0);
    WriteActRendersIntended(0, 70);
    WriteActRendersIntended(0, 80);
    ParseRender(Codes(ON, RED_LED, OFF));
    ParseRender(Codes(OFF, GREEN_LED, OFF));
    ParseRender(Codes(OFF, BLUE_LED, ON));
  }

  /** The four flags: red_led, green_led, blue_led, humidifier. */
  datatype Lights = Lights(red: bool, green: bool, blue: bool, humidifier: bool)

  /** What one reply does: the new flags, and whether the ventilation alarm sounds. */
  datatype Effect = Effect(lights: Lights, alert: bool)

  /**
   * The reply's effect stated flag by flag. The LED code lights its own LED
   * and puts out the other two; humi OFF stops the humidifier; humi ON starts
   * it under the RED code always, under GREEN only when the blue LED was off
   * and under BLUE only when the blue LED was already on; the alarm sounds
   * under BLUE when humi OFF stops a running humidifier and the buzzer code
   * is ON. Any other LED code changes nothing.
   */
  function Next(s: Lights, c: Codes): (e: Effect)
    ensures c.led == RED_LED || c.led == GREEN_LED || c.led == BLUE_LED ==>
              e.lights.red == (c.led == RED_LED) && e.lights.green == (c.led == GREEN_LED) &&
              e.lights.blue == (c.led == BLUE_LED)
    ensures c.led != RED_LED && c.led != GREEN_LED && c.led != BLUE_LED ==> e == Effect(s, false)
    ensures e.alert ==> c.led == BLUE_LED && c.humi == OFF && c.buz == ON && s.humidifier
  {
    var started := c.humi == ON && (c.led == RED_LED || (c.led == GREEN_LED && !s.blue) || (c.led == BLUE_LED && s.blue));
    var humidifier := if c.humi == OFF then false else if started then true else s.humidifier;
    if c.led != RED_LED && c.led != GREEN_LED && c.led != BLUE_LED then Effect(s, false)
    else
      Effect(Lights(c.led == RED_LED, c.led == GREEN_LED, c.led == BLUE_LED, humidifier),
             c.led == BLUE_LED && c.humi == OFF && s.humidifier && c.buz == ON)
  }

  /**
   * The humidifier after a humi code of OFF or ON: OFF always stops it; ON
   * starts it under RED, under GREEN unless the blue LED was lit, and under
   * BLUE only if the blue LED was already lit; otherwise it keeps running
   * only if it already was.
   */
  lemma HumidifierAfter(s: Lights, c: Codes)
    requires c.led == RED_LED || c.led == GREEN_LED || c.led == BLUE_LED
    requires c.humi == OFF || c.humi == ON
    ensures c.humi == OFF ==> !Next(s, c).lights.humidifier
    ensures c.humi == ON && c.led == RED_LED ==> Next(s, c).lights.humidifier
    ensures c.humi == ON && c.led == GREEN_LED ==> Next(s, c).lights.humidifier == (!s.blue || s.humidifier)
    ensures c.humi == ON && c.led == BLUE_LED ==> Next(s, c).lights.humidifier == (s.blue || s.humidifier)
  {
  }

  /**
   * After a reply of the server the humidifier runs exactly when the air is
   * drier than ideal, the LED shows dry, ideal or humid, and the alarm sounds
   * exactly when the air is too humid while the humidifier was running.
   */
  lemma ServerReplyEffect(s: Lights, temper: int, humid: int)
    ensures ParseReply(WriteAct(temper, humid)).Some?
    ensures var ideal := IdealHumidity(temper);
            var e := Next(s, ParseReply(WriteAct(temper, humid)).value);
            e.lights == Lights(humid < ideal, humid == ideal, humid > ideal, humid < ideal) &&
            e.alert == (humid > ideal && s.humidifier)
  {
    WriteActRendersIntended(temper, humid);
    ParseRender(Intended(temper, humid));
  }

  /** The client's four global flags. */
  class Panel {
    var red: bool
    var green: bool
    var blue: bool
    var humidifier: bool

    function State(): Lights
      reads this
    {
      Lights(red, green, blue, humidifier)
    }

    /** All four flags start off. */
    constructor ()
      ensures State() == Lights(false, false, false, false)
    {
      red, green, blue, humidifier := false, false, false, false;
    }

    /** The update of the flags for one reply, with the nesting of its branches as written. */
    method Apply(c: Codes) returns (alert: bool)
      modifies this
      ensures Effect(State(), alert) == Next(old(State()), c)
    {
      alert := false;
      if c.led == RED_LED {
        if !red { red := true; }
        if green { green := false; }
        if blue { blue := false; }
        if c.humi == OFF && humidifier {
          humidifier := false;
        } else if c.humi == ON && !humidifier {
          humidifier := true;
        }
      } else if c.led == GREEN_LED {
        if red { red := false; }
        if !green { green := true; }
        if blue {
          blue := false;
        } else if c.humi == ON && !humidifier {
          humidifier := true;
        }
        if c.humi == OFF && humidifier {
          humidifier := false;
        }
      } else if c.led == BLUE_LED {
        if red { red := false; }
        if green { green := false; }
        if !blue {
          blue := true;
        } else if c.humi == ON && !humidifier {
          humidifier := true;
        }
        if c.humi == OFF && humidifier {
          humidifier := false;
          if c.buz == ON {
            alert := true;
          }
        }
      }
    }

    /** One reply received: parse it, then update the flags; a malformed reply faults. */
    method HandleReply(reply: string) returns (ok: bool, alert: bool)
      modifies this
      ensures ok <==> ParseReply(reply).Some?
      ensures ok ==> Effect(State(), alert) == Next(old(State()), ParseReply(reply).value)
      ensures !ok ==> State() == old(State()) && !alert
    {
      var codes := ParseReply(reply);
      if codes.None? {
        return false, false;
      }
      ok := true;
      alert := Apply(codes.value);
    }
  }
}

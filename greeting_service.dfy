/** `GreetingService`: greetings built with `sprintf` and `ucfirst`. The
    hour of the day, which the service reads from the clock, is an input. */
module Greeting {

  /** PHP's `ucfirst`: an ASCII lower-case first letter becomes upper case;
      nothing else changes. */
  function UpperFirst(s: string): (r: string)
    ensures |r| == |s|
    ensures |s| > 0 ==> r[1..] == s[1..]
    ensures |s| > 0 && 'a' <= s[0] <= 'z' ==> r[0] as int == s[0] as int - 32 && 'A' <= r[0] <= 'Z'
    ensures |s| > 0 && !('a' <= s[0] <= 'z') ==> r == s
  {
    if |s| > 0 && 'a' <= s[0] <= 'z' then [(s[0] as int - 32) as char] + s[1..] else s
  }

  lemma UpperFirstIsIdempotent(s: string)
    ensures UpperFirst(UpperFirst(s)) == UpperFirst(s)
  {
  }

  /** `greet`: `sprintf('Hello, %s!', ucfirst($name))` */
  function Greet(name: string): (r: string)
    ensures |r| == |name| + 8
    ensures r[..7] == "Hello, " && r[|r| - 1] == '!'
    ensures r[7..|r| - 1] == UpperFirst(name)
  {
    "Hello, " + UpperFirst(name) + "!"
  }

  /** Greeting a name that is already capitalised changes nothing. */
  lemma GreetIgnoresCapitalisation(name: string)
    ensures Greet(UpperFirst(name)) == Greet(name)
  {
    UpperFirstIsIdempotent(name);
  }

  lemma GreetExamples()
    ensures Greet("john") == "Hello, John!"
    ensures Greet("alice") == "Hello, Alice!"
  {
    assert UpperFirst("john") == "John";
    assert UpperFirst("alice") == "Alice";
  }

  datatype DayPart = Morning | Afternoon | Evening | Night

  function Name(p: DayPart): string {
    match p
    case Morning => "morning"
    case Afternoon => "afternoon"
    case Evening => "evening"
    case Night => "night"
  }

  /** The `match (true)` over the hour: every hour falls in exactly one part
      of the day, night being everything before 5 and from 22 on. */
  function TimeOfDay(hour: int): (part: DayPart)
    ensures part == Morning <==> 5 <= hour < 12
    ensures part == Afternoon <==> 12 <= hour < 18
    ensures part == Evening <==> 18 <= hour < 22
    ensures part == Night <==> hour < 5 || hour >= 22
  {
    if hour >= 5 && hour < 12 then Morning
    else if hour >= 12 && hour < 18 then Afternoon
    else if hour >= 18 && hour < 22 then Evening
    else Night
  }

  lemma TimeOfDayBoundaries()
    ensures TimeOfDay(4) == Night && TimeOfDay(5) == Morning && TimeOfDay(11) == Morning
    ensures TimeOfDay(12) == Afternoon && TimeOfDay(17) == Afternoon
    ensures TimeOfDay(18) == Evening && TimeOfDay(21) == Evening && TimeOfDay(22) == Night
  {
  }

  /** `greetWithTime`: `sprintf('Good %s, %s!', $timeOfDay, ucfirst($name))` */
  function GreetWithTime(name: string, hour: int): (r: string)
    ensures |r| == 8 + |Name(TimeOfDay(hour))| + |name|
    ensures r[..5] == "Good " && r[|r| - 1] == '!'
  {
    "Good " + Name(TimeOfDay(hour)) + ", " + UpperFirst(name) + "!"
  }

  /** The greeting splits into "Good ", the part of the day, ", ", the
      capitalised name and "!". */
  lemma GreetWithTimeParts(name: string, hour: int)
    ensures var r, part := GreetWithTime(name, hour), Name(TimeOfDay(hour));
      r[5..5 + |part|] == part && r[5 + |part|..|r| - 1] == ", " + UpperFirst(name)
  {
    var part := Name(TimeOfDay(hour));
    var tail := ", " + UpperFirst(name);
    var r := GreetWithTime(name, hour);
    assert r == "Good " + part + tail + "!";
    assert r[5..5 + |part|] == part;
    assert r[5 + |part|..|r| - 1] == tail;
  }

  /** Whatever the hour, greeting "bob" matches
      `/Good (morning|afternoon|evening|night), Bob!/`. */
  lemma GreetBobAtAnyHour(hour: int)
    ensures exists p: DayPart :: GreetWithTime("bob", hour) == "Good " + Name(p) + ", Bob!"
  {
    assert UpperFirst("bob") == "Bob";
    assert GreetWithTime("bob", hour) == "Good " + Name(TimeOfDay(hour)) + ", Bob!";
  }
}

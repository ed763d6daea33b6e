/**
 * The status badge of an application card: `getStatusColor`, which maps a hiring status to
 * its colour classes, and the label `status.charAt(0).toUpperCase() + status.slice(1)`.
 */
module ApplicationCard {
  import opened JsText

  const BlueClass: string := "bg-blue-900/50 text-blue-200"
  const YellowClass: string := "bg-yellow-900/50 text-yellow-200"
  const GreenClass: string := "bg-green-900/50 text-green-200"
  const RedClass: string := "bg-red-900/50 text-red-200"
  const GrayClass: string := "bg-gray-800/50 text-gray-200"

  /** The statuses `getStatusColor` recognises. */
  predicate IsKnownStatus(status: string) {
    status == "applied" || status == "interviewing" || status == "hired" || status == "rejected"
  }

  /** `getStatusColor`: one colour per recognised status, gray for anything else. */
  function StatusColor(status: string): (r: string)
    ensures status == "applied" ==> r == BlueClass
    ensures status == "interviewing" ==> r == YellowClass
    ensures status == "hired" ==> r == GreenClass
    ensures status == "rejected" ==> r == RedClass
    ensures r == GrayClass <==> !IsKnownStatus(status)
    ensures r in {BlueClass, YellowClass, GreenClass, RedClass, GrayClass}
  {
    if status == "applied" then BlueClass
    else if status == "interviewing" then YellowClass
    else if status == "hired" then GreenClass
    else if status == "rejected" then RedClass
    else GrayClass
  }

  /** The four recognised statuses get four different colours. */
  lemma KnownColorsDistinct(s1: string, s2: string)
    requires IsKnownStatus(s1) && IsKnownStatus(s2) && s1 != s2
    ensures StatusColor(s1) != StatusColor(s2)
  {
    assert |BlueClass| == 28 && |YellowClass| == 32 && |GreenClass| == 30 && |RedClass| == 26;
  }

  /** The recruiter's select: each option's value and the text it shows. */
  const RecruiterOptions: seq<(string, string)> :=
    [("applied", "Applied"), ("interviewing", "Interviewing"), ("hired", "Hired"), ("rejected", "Rejected")]

  /** `status.charAt(0).toUpperCase() + status.slice(1)`, with ASCII upper-casing. */
  function StatusLabel(status: string): (r: string)
    ensures |r| == |status|
    ensures status != [] ==> r[0] == AsciiUpper(status[0]) && r[1..] == status[1..]
  {
    if status == [] then [] else [AsciiUpper(status[0])] + status[1..]
  }

  /** A status that starts with a lower-case letter is shown with that letter upper-cased. */
  lemma LabelOfLowerInitial(initial: char, upper: char, rest: string)
    requires 'a' <= initial <= 'z' && upper as int == initial as int - 32
    ensures StatusLabel([initial] + rest) == [upper] + rest
  {
    assert ([initial] + rest)[1..] == rest;
  }

  /** Every selectable status is recognised, is shown as its own label, and never gets the gray default. */
  lemma RecruiterOptionsAreKnown(i: nat)
    requires i < |RecruiterOptions|
    ensures IsKnownStatus(RecruiterOptions[i].0)
    ensures StatusColor(RecruiterOptions[i].0) != GrayClass
    ensures StatusLabel(RecruiterOptions[i].0) == RecruiterOptions[i].1
  {
    var value, caption := RecruiterOptions[i].0, RecruiterOptions[i].1;
    if i == 0 {
      assert value == ['a'] + "pplied" && caption == ['A'] + "pplied";
      LabelOfLowerInitial('a', 'A', "pplied");
    } else if i == 1 {
      assert value == ['i'] + "nterviewing" && caption == ['I'] + "nterviewing";
      LabelOfLowerInitial('i', 'I', "nterviewing");
    } else if i == 2 {
      assert value == ['h'] + "ired" && caption == ['H'] + "ired";
      LabelOfLowerInitial('h', 'H', "ired");
    } else {
      assert value == ['r'] + "ejected" && caption == ['R'] + "ejected";
      LabelOfLowerInitial('r', 'R', "ejected");
    }
  }

  /** The recognised statuses are exactly the selectable ones. */
  lemma KnownStatusesAreOptions(status: string)
    ensures IsKnownStatus(status) <==> exists i :: 0 <= i < |RecruiterOptions| && RecruiterOptions[i].0 == status
  {
    if IsKnownStatus(status) {
      var i := if status == "applied" then 0 else if status == "interviewing" then 1
               else if status == "hired" then 2 else 3;
      assert RecruiterOptions[i].0 == status;
    }
  }
}

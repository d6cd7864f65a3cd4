/** The `Display` counter: left-pads its text with '0' to three characters. */
module Display {

  /** Prepends '0' to the text, one character at a time, until it is at
      least three characters long. */
  method Pad(value: string) returns (padded: string)
    ensures |padded| == if |value| < 3 then 3 else |value|
    ensures padded[|padded| - |value|..] == value
    ensures forall k | 0 <= k < |padded| - |value| :: padded[k] == '0'
    ensures |value| >= 3 ==> padded == value
  {
    padded := value;
    while |padded| < 3
      invariant |value| <= |padded| <= if |value| < 3 then 3 else |value|
      invariant padded[|padded| - |value|..] == value
      invariant forall k | 0 <= k < |padded| - |value| :: padded[k] == '0'
      decreases 3 - |padded|
    {
      padded := "0" + padded;
    }
  }
}

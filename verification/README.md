# Trafodion NativeLite, verified in Dafny

A Dafny 4.11 model of the parts of Trafodion NativeLite whose correctness is arithmetic, bookkeeping
over whole runs, or undoing one conversion by another:

* **The decimal codec of the ODBC driver** (`win-odbc64/Common/ExpConvMxcs.cpp`): text to decimal
  digits, digits to base-65536 limbs with a sign bit, and back; 64-bit integers and SQL intervals to
  text. Modules `Positional`, `BcdToBigNum`, `BigNumToBcd`, `DecimalText`, `DecimalMeaning`,
  `DecimalAccept`, `DecimalPrint`, `BigNumText`, `BigNumCodec`, `Int64Text`, `Int64Parse`,
  `IntervalText`, `IntervalCodec`.
* **The TPC-C client and loader** (`scripts/TrafodionLiteTpccTransactions.java`,
  `scripts/TrafodionLiteTpcc.java`): tables, client maps and transactions as a state machine over
  arbitrary runs, the terminal as a class, and loading that resumes after interruption. Modules
  `TpccFormulas`, `TpccState`, `TpccInvariant`, `TpccRuns`, `TpccQueues`, `TpccClauses`, `TpccMoney`,
  `TpccLedger`, `TpccSessions`, `TpccDeliveries`, `TpccStock`, `TpccOvershoot`, `TpccClient`, `TpccReads`, `TpccOpen`,
  `TpccTerminal`, `LoaderResume`, `LoaderPlans`.
* **Byte-level conversions** (`win-odbc64/Common/nskieee.cpp`, `win-odbc64/Common/swap.cpp`): Tandem
  and IEEE 754 floating point, and the byte order of a diagnostics message. Modules `TandemFloat`,
  `TandemBuffer`, `DiagnosticsSwap`.
* **Ordered catalog keys** (`scripts/lite-metadata-key-migration-test.cpp`): modules `CatalogKeys` and
  `CatalogMigration`.
* **The registry of temporary memory** (`win-odbc64/Common/TransportBase.cpp`): module `TempMemory`.

`Arithmetic` and `Options` hold what several of these share.

`dafny verify dfyconfig.toml` checks the project. A loop that is modelled is a method with that loop,
proved against a function of its input; what the sources promise is proved about those functions and,
for the state machine, about every sequence of steps.

## What is not as promised

Where the code does less than its comments, its callers or the TPC-C standard expect, the model keeps
the code's behaviour, and a lemma states exactly when the expectation is met.

* Parsing a number whose magnitude reaches the sign bit of the target succeeds and changes its
  meaning; the parsed value is the number in the text exactly below 2^(16 n - 1), and "32768" is read
  into one limb as zero (`BigNumText.ParsedValue`, `BigNumText.SignBitLost`).
* The interface comment (`win-odbc64/Common/ExpConvMxcs.cpp:1759-1761`) asks for one character more
  than the precision. The whole fraction is printed exactly when sign, whole digits, point and
  fraction fit; two more are always enough, one is not (`DecimalPrint.PrintComplete`,
  `DecimalPrint.PrecisionPlusTwoSuffices`, `DecimalPrint.PrecisionPlusOneLoses`). Otherwise it is cut to
  the longest front that fits (`DecimalPrint.PrintLongest`).
* The parser does not look at fraction characters behind the target scale: "1.2x" is read with one
  fraction digit as 1.2, cut off. A text is accepted exactly when it is a decimal text whose number
  fits, or such a text with exactly the target's fraction digits followed by any characters but an
  exponent's (`DecimalAccept.AcceptedIff`, `DecimalAccept.TailNotRead`). What is accepted without
  truncation is a decimal text (`DecimalAccept.UntruncatedIsDecimal`). A character that is no digit in
  front of the last kept ones is reported as an overflow (`DecimalAccept.FrontNotRead`).
* Whether a printed 64-bit number reads back depends on filler and padding. Behind the number, blanks,
  zeros of a fraction or of zero, and one point of a whole number do no harm; between sign and digits
  only zeros, and one point of zero; in front of a number without a sign also blanks, one plus, and
  one minus of a whole zero. A minus that moved next to its digits reads back exactly when the field
  held a blank in front and the other fillers are blanks too (`Int64Parse.Int64RoundTrip`, with fields
  that fail in `Int64Parse.PaddedSign` and `Int64Parse.ZeroFilled`).
* A Delivery on an empty queue moves the client's cursor past orders that do not exist yet. The cursor
  stays at or below the oldest queued order exactly as long as every Delivery finds a queued order, or
  the district's next order id is beyond the search limit, or a database error stops the search in
  time (`TpccRuns.RunKeeps`). NEW-ORDER never has a gap exactly as long as no Delivery starts with its
  cursor above the oldest queued order and below the next order id (`TpccClauses.RunQueues`); a
  concrete run does, and leaves one (`TpccOvershoot.OvershootLeavesGap`).
* The client's search for a customer's latest loaded order is right exactly when no order between
  the number of orders and the number of customers would be the customer's
  (`TpccFormulas.LoadedOrderForCustomer`); every customer has a loaded order exactly when 37 does not
  divide their number and there are at least as many orders (`TpccFormulas.EveryCustomerIff`, with a
  customer without an order in `TpccFormulas.NoOrderOf37` and `TpccFormulas.NoOrderOf100`).
  Order-Status evaluates that search even when it knows a later order, and fails with it
  (`TpccTerminal.ReadStatus`).
* A transaction that finds a row missing raises an error that no handler rolls back
  (`scripts/TrafodionLiteTpccTransactions.java:139-141,424-427`). A Payment for a customer that does
  not exist leaves its warehouse and district updates open, and the next commit of the same terminal
  publishes them. W_YTD and D_YTD keep their difference to each other and to H_AMOUNT exactly when no
  terminal commits with such an update of an existing warehouse open (`TpccSessions.SessionMoney`, a
  failing run in `TpccSessions.RefusedThenPaid`).
* Without such updates W_YTD is the sum of D_YTD exactly for ten districts, and the sum of H_AMOUNT
  exactly for 30000 customers in a warehouse; D_YTD is the sum of H_AMOUNT exactly for 3000 customers
  in a district. Each published update shifts these numbers by one (`TpccMoney.WarehouseYtdIff`,
  `TpccMoney.WarehouseHistoryIff`, `TpccMoney.DistrictHistoryIff`).
* The client's maps agree with the tables exactly as long as it was reconfigured only before its first
  New-Order (`TpccClient.RunClient`, `TpccClient.OrderThenReset`). After a later reconfiguration
  Stock-Level knows its window again exactly once twenty more orders are taken in the district
  (`TpccReads.RunWindowKnown`); until then it can miss items (`TpccReads.StockForgets`).
* The number domain of the loader can be filled exactly up to a million numbers
  (`LoaderPlans.DomainLimit`, `LoaderPlans.OneTooMany`).
* IEEE doubles come back from the Tandem format exactly for biased exponents 768 to 1278, and when the
  exponent is zero exactly if the eight bytes are a palindrome whose Tandem exponent is zero too: 767
  is accepted and lost, plus zero comes back, negative zero stays byte-swapped
  (`TandemFloat.DoubleRoundTrip`, `TandemFloat.NegativeZeroSwapped`). The other three trips have the
  same second case. Tandem doubles come back exactly with clear lowest fraction bits
  (`TandemFloat.T16Restored`), IEEE singles for exponents 1 to 253 with a clear lowest bit
  (`TandemFloat.SingleRestored`), Tandem singles for exponents 130 to 382, below which the test for
  underflow never fires (`TandemFloat.T16SingleRoundTrip`).
* Downgrading catalog keys keeps a value under the legacy key exactly when there is a key below the
  prefix, and the legacy key was not stored before or was the first one (`CatalogMigration.Downgrade`,
  `CatalogMigration.LegacyLost`).

## Model

| member | source | states |
|---|---|---|
| BcdToBigNum.MulAddPass | win-odbc64/Common/ExpConvMxcs.cpp:208-217 | one pass over the limbs multiplies the number by 10^j and adds the next chunk; the carry out is exact and nothing exceeds 32 bits |
| BcdToBigNum.ReadChunk | win-odbc64/Common/ExpConvMxcs.cpp:199-206 | up to four digits are read as their decimal value |
| BcdToBigNum.ConsumeChunk | win-odbc64/Common/ExpConvMxcs.cpp:197-224 | after a chunk the used limbs denote the digits read so far, and it fails exactly when they need more limbs than there are |
| BcdToBigNum.ConvBcdToBigNum | win-odbc64/Common/ExpConvMxcs.cpp:148-228 | the limbs denote the value of the digits; -1 exactly when it is at least 65536^limbs |
| BigNumToBcd.DivPass | win-odbc64/Common/ExpConvMxcs.cpp:312-328 | short division by 10^4 in place: quotient, remainder below 10^4, every partial quotient below 2^16 |
| BigNumToBcd.TopStaysNonzero | win-odbc64/Common/ExpConvMxcs.cpp:329-330 | at most the top limb becomes zero in a division pass, and then the one below it is not |
| BigNumToBcd.DivideAndDrop | win-odbc64/Common/ExpConvMxcs.cpp:312-330 | dividing and dropping at most one limb keeps quotient and remainder and the top limb nonzero, and makes the number smaller |
| BigNumToBcd.PushRemainder | win-odbc64/Common/ExpConvMxcs.cpp:332-343 | four digits of a remainder are written in front of those written before; the remainder is zero afterwards; failure means the value does not fit |
| BigNumToBcd.PushFinal | win-odbc64/Common/ExpConvMxcs.cpp:346-358 | the digits of the last quotient complete the number, without leading zeros |
| BigNumToBcd.ConvBigNumToBcd | win-odbc64/Common/ExpConvMxcs.cpp:261-363 | the field holds the zero-padded decimal digits of the limbs' value; -1 exactly when that is at least 10^length; nothing else is written |
| BigNumCodec.ConvBigNumWithSignToBcd | win-odbc64/Common/ExpConvMxcs.cpp:365-388 | sign character and digits of the magnitude; the source limbs are restored |
| BigNumCodec.ConvBcdToBigNumWithSign | win-odbc64/Common/ExpConvMxcs.cpp:234-249 | limbs of the digits' value with the sign bit set for a minus |
| DecimalText.Trim | win-odbc64/Common/ExpConvMxcs.cpp:659-671 | the text without the blanks around it |
| DecimalText.CopyDigits | win-odbc64/Common/ExpConvMxcs.cpp:743-787 | the kept digits stand right-aligned in the field; truncation exactly when a dropped character is not zero; an error in the text exactly when one of the last kept characters, as many as the field has room for, is no digit, otherwise overflow exactly when more are kept |
| DecimalText.ConvAsciiToDec | win-odbc64/Common/ExpConvMxcs.cpp:646-798 | status, truncation flag, digits and sign flag are those of `ParseDec`, for every text |
| DecimalMeaning.ParseMeaning | win-odbc64/Common/ExpConvMxcs.cpp:646-798 | for every well-formed decimal text: overflow exactly when the magnitude scaled and cut is at least 10^length, otherwise exactly its digits, truncation exactly when it was not exact, sign |
| DecimalAccept.AcceptedIff | win-odbc64/Common/ExpConvMxcs.cpp:646-798 | for every text: accepted exactly when it is a decimal text whose number fits, or one with exactly the target's fraction digits and, behind them, any characters but an exponent's |
| DecimalAccept.AcceptedMeaning | win-odbc64/Common/ExpConvMxcs.cpp:646-798 | an accepted text has the value of its decimal text; truncation exactly when that is inexact or something other than zeros follows |
| DecimalAccept.DecimalIff | win-odbc64/Common/ExpConvMxcs.cpp:743-787 | an accepted text is a decimal text exactly when the characters that were dropped are digits |
| DecimalAccept.UntruncatedIsDecimal | win-odbc64/Common/ExpConvMxcs.cpp:646-798 | what is accepted without truncation is a decimal text of exactly that value |
| DecimalAccept.TailNotRead | win-odbc64/Common/ExpConvMxcs.cpp:743-787 | "1.2x" is no decimal text and is read as 1.2 with truncation |
| DecimalAccept.FrontNotRead | win-odbc64/Common/ExpConvMxcs.cpp:743-798 | "x123" in three digits is reported as an overflow |
| DecimalPrint.PrintFits | win-odbc64/Common/ExpConvMxcs.cpp:870-952 | what is printed always fits into the room the converter works with |
| DecimalPrint.PrintComplete | win-odbc64/Common/ExpConvMxcs.cpp:870-927 | the complete number is printed exactly when sign, whole digits, point and fraction fit |
| DecimalPrint.PrintLongest | win-odbc64/Common/ExpConvMxcs.cpp:870-927 | what is printed is the complete text, or the longest front of it that has room and does not end in the point |
| DecimalPrint.CutAtRoom | win-odbc64/Common/ExpConvMxcs.cpp:886-895 | -123.456 in seven characters is printed as -123.45 |
| DecimalPrint.NoLeadingZeros | win-odbc64/Common/ExpConvMxcs.cpp:870-877 | no zero in front of another whole digit; no whole digit at all only when the precision leaves room for none |
| DecimalPrint.PrecisionPlusTwoSuffices | win-odbc64/Common/ExpConvMxcs.cpp:870-927 | a target two characters longer than the precision always shows the complete number |
| DecimalPrint.PrecisionPlusOneLoses | win-odbc64/Common/ExpConvMxcs.cpp:1759-1761 | the documented length loses the fraction of -12.3 |
| DecimalPrint.FullTextValue | win-odbc64/Common/ExpConvMxcs.cpp:877-927 | the complete text denotes the digits' value exactly |
| DecimalPrint.Layout | win-odbc64/Common/ExpConvMxcs.cpp:870-899 | first printed digit, number of whole digits and number of fraction digits that fit |
| DecimalPrint.ConvLargeDecToAscii | win-odbc64/Common/ExpConvMxcs.cpp:837-954 | the target holds the printed text and a terminator, and overflow is never reported |
| BigNumText.ParseBigNumStatus | win-odbc64/Common/ExpConvMxcs.cpp:967-1026 | parsing overflows exactly when the scaled magnitude needs more digits or more limbs, and reports truncation exactly when it was inexact |
| BigNumText.ParsedValue | win-odbc64/Common/ExpConvMxcs.cpp:967-1026 | the parsed BigNum denotes the number in the text exactly when the magnitude is below the sign bit |
| BigNumText.SignBitLost | win-odbc64/Common/ExpConvMxcs.cpp:967-1026 | "32768" is read into one limb without an error, as zero |
| BigNumText.PrintParseRoundTrip | win-odbc64/Common/ExpConvMxcs.cpp:967-1064 | printing and parsing with the same precision and scale gives the same BigNum, without truncation; negative zero comes back as zero |
| BigNumCodec.ConvAsciiToBigNum | win-odbc64/Common/ExpConvMxcs.cpp:967-1026 | status, truncation and limbs are those of `ParseBigNum` |
| BigNumCodec.ConvBigNumToAscii | win-odbc64/Common/ExpConvMxcs.cpp:1035-1064 | the target holds the text of `PrintBigNum` and is unchanged behind it, numeric overflow exactly when the magnitude has too many digits, the source limbs unchanged |
| Int64Text.GetDigitCount | win-odbc64/Common/ExpConvMxcs.cpp:1114-1151 | the number of decimal digits of any 64-bit magnitude |
| Int64Text.ConvInt64ToAscii | win-odbc64/Common/ExpConvMxcs.cpp:1440-1548 | the field holds sign, filler and pointed digits at their places for every 64-bit number including the smallest; failure exactly when they do not fit; nothing else is written |
| Int64Text.FieldLayout | win-odbc64/Common/ExpConvMxcs.cpp:1440-1548 | the number stands at the end of the field that is not padded, a leading sign comes first, a minus without one stands next to the number, and all else is filler |
| Int64Text.WidthIsLeast | win-odbc64/Common/ExpConvMxcs.cpp:1470-1490 | no narrower number has the digits and the scale |
| Int64Parse.Int64RoundTrip | win-odbc64/Common/ExpConvMxcs.cpp:1440-1548 | for every filler, sign, padding and old contents of the field: the text parser reads a printed number back with the same scale (its digits, its sign, no truncation) exactly when `ReadsBack` holds of filler, padding, scale and source |
| Int64Parse.PaddedSign | win-odbc64/Common/ExpConvMxcs.cpp:1440-1548 | -5 left-padded behind its leading sign is refused as no number |
| Int64Parse.ZeroFilled | win-odbc64/Common/ExpConvMxcs.cpp:1664-1695 | 5 with a zero behind it is not read as 5; -5 with a zero behind its sign is read as -5 |
| IntervalText.LaterReadBack | win-odbc64/Common/ExpConvMxcs.cpp:1678-1701 | reading the later fields in mixed radix on top of the leading one gives the whole count |
| IntervalText.LaterInRange | win-odbc64/Common/ExpConvMxcs.cpp:1678-1701 | every later field has its delimiter and two digits below its radix |
| IntervalText.IntervalReadBack | win-odbc64/Common/ExpConvMxcs.cpp:1553-1724 | reading the printed interval in mixed radix gives the original value |
| IntervalText.FieldsOfType | win-odbc64/Common/ExpConvMxcs.cpp:1066-1108 | each of the thirteen interval types stands for one range of fields: years and months, or any two of day to second |
| IntervalText.TypedReadBack | win-odbc64/Common/ExpConvMxcs.cpp:1553-1724 | the printed interval of a type reads back with the fields of that type |
| IntervalText.FieldsAddUp | win-odbc64/Common/ExpConvMxcs.cpp:1678-1701 | the printed fields, in months or seconds, add up to the value |
| IntervalText.HourToMinute | win-odbc64/Common/ExpConvMxcs.cpp:1553-1724 | 90 minutes as HOUR TO MINUTE is " 1:30" |
| IntervalText.YearToMonth | win-odbc64/Common/ExpConvMxcs.cpp:1553-1724 | -14 months as YEAR TO MONTH is "- 1-02" |
| IntervalText.DayToSecond | win-odbc64/Common/ExpConvMxcs.cpp:1553-1724 | 93784 seconds as DAY TO SECOND is "1 02:03:04" |
| IntervalCodec.SplitFraction | win-odbc64/Common/ExpConvMxcs.cpp:1630-1642 | the count splits into whole units and a decimal fraction of a unit |
| IntervalCodec.SignedOfLE | win-odbc64/Common/ExpConvMxcs.cpp:1572-1594 | reading two's complement bytes undoes writing them, for every number that fits |
| IntervalCodec.PutAllLater | win-odbc64/Common/ExpConvMxcs.cpp:1678-1701 | the later fields are written from the last to the first, and what is left is the leading field |
| IntervalCodec.ConvIntervalToAscii | win-odbc64/Common/ExpConvMxcs.cpp:1553-1724 | the target holds blanks and the interval's text and is unchanged behind its length; failure exactly when the target is too short or the leading field has more digits than its precision |
| TpccFormulas.LoadedOrderForCustomer | scripts/TrafodionLiteTpccTransactions.java:107-121 | looking at the first `customers` orders finds the greatest matching one of all; exactly when that is the greatest loaded one |
| TpccFormulas.EveryCustomerIff | scripts/TrafodionLiteTpcc.java:449-457 | every customer has a loaded order exactly when 37 does not divide their number and there are at least as many orders as customers |
| TpccFormulas.NoOrderOf37 | scripts/TrafodionLiteTpcc.java:449-457 | with 37 customers, customer 19 of district 1 has no order, however many are loaded |
| TpccFormulas.NoOrderOf100 | scripts/TrafodionLiteTpcc.java:449-457 | with 100 customers and 50 orders, customer 18 of district 1 has none |
| TpccInvariant.LoadedTables | scripts/TrafodionLiteTpcc.java:440-533 | the loaded state satisfies the table invariant, its queues start at the loaded cursor |
| TpccInvariant.NewOrderDistrict | scripts/TrafodionLiteTpccTransactions.java:239-390 | New-Order keeps the order tables of its district consistent: ids, lines, amounts, carriers, dates |
| TpccInvariant.DeliverDistrict | scripts/TrafodionLiteTpccTransactions.java:504-577 | delivering any queued order keeps the order tables consistent |
| TpccInvariant.SearchOutcome | scripts/TrafodionLiteTpccTransactions.java:479-503 | where the bounded search stops, and with what answer, for a queue without gaps |
| TpccInvariant.SearchPartOutcome | scripts/TrafodionLiteTpccTransactions.java:481-503 | where a search that a database error stops after some lookups leaves the cursor: exactly when at or below the oldest queued order |
| TpccRuns.StepTables | scripts/TrafodionLiteTpccTransactions.java:239-583 | every step keeps the table invariant |
| TpccRuns.RunTables | scripts/TrafodionLiteTpccTransactions.java:239-583 | the table invariant holds after every run from the loaded state |
| TpccRuns.DeliveredIsHead | scripts/TrafodionLiteTpccTransactions.java:481-577 | Delivery takes the oldest queued order, or fails exactly when that is out of the search's reach |
| TpccRuns.StepKeeps | scripts/TrafodionLiteTpccTransactions.java:479-583 | a step keeps the queues without gaps, and the cursors at or below them exactly when it is safe |
| TpccRuns.RunKeeps | scripts/TrafodionLiteTpccTransactions.java:479-583 | over every run: cursors at or below the oldest queued order throughout, exactly when every Delivery was safe |
| TpccRuns.RunDelivers | scripts/TrafodionLiteTpccTransactions.java:479-503 | after every run with safe Deliveries, a Delivery takes the smallest queued id, and always finds one up to the search limit |
| TpccClauses.LineTotal | scripts/TrafodionLiteTpcc.java:505-528 | O_OL_CNT of the orders below any id adds up to the number of their order lines |
| TpccClauses.RunConsistent | scripts/TrafodionLiteTpccTransactions.java:239-583 | TPC-C clauses 3.3.2.2 (orders) and 3.3.2.4 to 3.3.2.7 for every district after every run |
| TpccQueues.StepQueues | scripts/TrafodionLiteTpccTransactions.java:479-583 | a step from contiguous queues keeps them contiguous exactly when it is no Delivery with its cursor between the oldest queued order and the next order id |
| TpccQueues.RunContiguous | scripts/TrafodionLiteTpccTransactions.java:479-583 | over every run: all queues contiguous after every step, exactly when no Delivery started with its cursor there |
| TpccClauses.RunQueues | scripts/TrafodionLiteTpccTransactions.java:479-583 | over every run: TPC-C clauses 3.3.2.2 and 3.3.2.3 for NEW-ORDER hold throughout exactly when no Delivery started with its cursor there, which safe Deliveries never do |
| TpccOvershoot.OvershootLeavesGap | scripts/TrafodionLiteTpccTransactions.java:479-503 | a run, reachable for every configuration with enough items, whose NEW-ORDER table has a gap |
| TpccMoney.LoadedMoney | scripts/TrafodionLiteTpcc.java:389-438 | the loaded state satisfies the money invariant |
| TpccMoney.StepMoney | scripts/TrafodionLiteTpccTransactions.java:239-583 | every step conserves money, but for the updates of a refused Payment that a commit publishes, which are counted |
| TpccMoney.RunMoney | scripts/TrafodionLiteTpccTransactions.java:392-428 | after every run: C_BALANCE + C_YTD_PAYMENT is the sum of the customer's delivered OL_AMOUNT, C_YTD_PAYMENT the sum of their H_AMOUNT and ten times C_PAYMENT_CNT; W_YTD less the D_YTD, and W_YTD and D_YTD less the H_AMOUNT, are as loaded and ten more for each published update of a refused Payment there |
| TpccMoney.WarehouseYtdIff | scripts/TrafodionLiteTpcc.java:547-563 | after every run W_YTD is the sum of D_YTD exactly when 3000 times the districts is 30000 plus the published updates of districts that do not exist |
| TpccMoney.WarehouseHistoryIff | scripts/TrafodionLiteTpcc.java:417-434 | after every run W_YTD is the sum of H_AMOUNT exactly when the warehouse has 30000 customers plus one for each published update |
| TpccMoney.DistrictHistoryIff | scripts/TrafodionLiteTpcc.java:417-434 | after every run D_YTD is the sum of H_AMOUNT exactly when the district has 3000 customers plus one for each published update |
| TpccMoney.BalanceIs | scripts/TrafodionLiteTpccTransactions.java:534-576 | a balance is what was delivered less what was paid, after every run |
| TpccLedger.NewOrderBooks | scripts/TrafodionLiteTpccTransactions.java:352-383 | a committed New-Order gives its customer exactly the next order id and no other customer any |
| TpccLedger.RunBooked | scripts/TrafodionLiteTpccTransactions.java:239-390 | after every run the orders behind the loaded ones are the New-Orders of the run, in order, each for the customer it names |
| TpccLedger.RunOrders | scripts/TrafodionLiteTpccTransactions.java:239-390 | after every run a customer has as many orders since loading as the run has committed New-Orders for them |
| TpccLedger.RunPaid | scripts/TrafodionLiteTpccTransactions.java:392-428 | after every run HISTORY is the loaded rows and one row of 10.00 for each committed Payment, in order and in its customer's name, and C_PAYMENT_CNT is one more than the number of the customer's |
| TpccLedger.DeliveryCarrier | scripts/TrafodionLiteTpccTransactions.java:527-533 | a Delivery gives the order it takes the carrier it names and leaves the carrier of every other order |
| TpccLedger.RunCarriers | scripts/TrafodionLiteTpccTransactions.java:479-583 | after every run O_CARRIER_ID is the carrier of the Delivery that took the order, the loader's for one delivered before, or none |
| TpccLedger.RunCarriersInRange | scripts/TrafodionLiteTpcc.java:445-446 | carriers stay between 1 and 10 if the Deliveries name such |
| TpccLedger.RunLines | scripts/TrafodionLiteTpcc.java:514-523 | after every run each line has quantity five, its item, and the loaded amount or five times the item's price |
| TpccLedger.LoadedValues | scripts/TrafodionLiteTpcc.java:376-382 | prices, amounts and quantities are in the ranges of clause 4.3.3.1 |
| TpccLedger.LoadedSample | scripts/TrafodionLiteTpcc.java:445-523 | customer, line count, item, amount, price and stock of rows of a load with seed 42 |
| TpccSessions.SessionIsRun | scripts/TrafodionLiteTpccTransactions.java:392-428 | whatever several terminals attempt, in any order, the committed state is that of a run of the state machine |
| TpccSessions.SessionMoney | scripts/TrafodionLiteTpccTransactions.java:392-428 | for any terminals and actions: the totals are as loaded, against each other and against HISTORY, exactly when no terminal committed while an update of its own refused Payment on an existing warehouse was open |
| TpccSessions.RefusedThenPaid | scripts/TrafodionLiteTpccTransactions.java:392-428 | a refused Payment followed by one of the same terminal breaks the totals |
| TpccOpen.CommitAgrees | scripts/TrafodionLiteTpccTransactions.java:381-387 | when a terminal sees the committed tables with its open updates, a commit publishes exactly these and the step, and nothing is open after it |
| TpccOpen.RefusedPaymentAgrees | scripts/TrafodionLiteTpccTransactions.java:392-428 | a Payment for a missing customer adds one open update to what it sees and nothing to what is committed |
| TpccOpen.AbortAgrees | scripts/TrafodionLiteTpccTransactions.java:479-503 | a Delivery that a database error ends drops the open updates and keeps the cursor it has reached |
| TpccDeliveries.RunCounts | scripts/TrafodionLiteTpccTransactions.java:555-574 | after every run C_DELIVERY_CNT is the number of the customer's orders delivered since loading |
| TpccStock.RestockIs | scripts/TrafodionLiteTpccTransactions.java:322-338 | taking five and topping up below fifteen walks the residues modulo 91 |
| TpccStock.RunStock | scripts/TrafodionLiteTpccTransactions.java:322-338 | after every run each stock row is a closed function of its item and of the orders its home district has taken |
| TpccStock.StockRow | scripts/TrafodionLiteTpcc.java:484-499 | after every run S_YTD = 5 S_ORDER_CNT, S_QUANTITY is between 10 and 100 and congruent to 10 + 37 i - S_YTD modulo 91, and S_ORDER_CNT counts the district's orders |
| TpccClient.StepClient | scripts/TrafodionLiteTpccTransactions.java:58-73 | every step keeps the client's maps in agreement with the tables, except a reconfiguration after the first New-Order |
| TpccClient.StaysForgotten | scripts/TrafodionLiteTpccTransactions.java:381-385 | an order the client has forgotten is never known again |
| TpccClient.RunClient | scripts/TrafodionLiteTpccTransactions.java:381-385 | after every run the maps agree with the tables exactly when every reconfiguration came before the first New-Order |
| TpccClient.OrderThenReset | scripts/TrafodionLiteTpccTransactions.java:58-73 | a New-Order followed by a reconfiguration leaves maps that disagree with the tables |
| TpccReads.KnownIsLast | scripts/TrafodionLiteTpccTransactions.java:430-434 | the map's order is the customer's last order in the tables |
| TpccReads.LoadedIsLast | scripts/TrafodionLiteTpccTransactions.java:430-434 | without one, the last order is the greatest loaded match |
| TpccReads.WindowDerived | scripts/TrafodionLiteTpccTransactions.java:585-620 | with the orders of the window known to the client, the derived item set equals the OL_I_ID values of the last twenty orders' lines, has 1 to 300 members, all of them items |
| TpccClient.RunRemembers | scripts/TrafodionLiteTpccTransactions.java:381-385 | after every run the client knows the items of exactly the orders taken since its last reconfiguration |
| TpccClient.PristineKnown | scripts/TrafodionLiteTpccTransactions.java:58-73 | which are all orders taken since loading if it was reconfigured only before the first of them |
| TpccReads.RunWindowKnown | scripts/TrafodionLiteTpccTransactions.java:585-620 | after every run the client knows the window exactly when it took no order in the district before its last reconfiguration, or at least twenty after it |
| TpccReads.RunWindow | scripts/TrafodionLiteTpccTransactions.java:585-620 | in every such run the derived item set equals the scan it replaces |
| TpccReads.StockForgets | scripts/TrafodionLiteTpccTransactions.java:585-620 | after a New-Order and a reconfiguration the derived set misses the items of that order |
| TpccTerminal.OrderItems | scripts/TrafodionLiteTpccTransactions.java:262-315 | the five items, and whether all of them and their stock rows exist |
| TpccTerminal.RestockItems | scripts/TrafodionLiteTpccTransactions.java:322-338 | the five stock rows changed, all others as they were |
| TpccTerminal.InsertLines | scripts/TrafodionLiteTpccTransactions.java:316-380 | five lines more, failing exactly when one was there |
| TpccTerminal.AddLines | scripts/TrafodionLiteTpccTransactions.java:534-546 | number and total amount of an order's lines |
| TpccTerminal.Terminal.NewOrder | scripts/TrafodionLiteTpccTransactions.java:239-390 | commits exactly when there is no database error, the rows it reads exist and those it inserts do not; is refused, with the transaction as it was, exactly when a row is missing; otherwise goes back to the last commit; in every case the session changes as `Do` says |
| TpccTerminal.Pay | scripts/TrafodionLiteTpccTransactions.java:392-428 | the three updates of a Payment: all of them, or the warehouse and district totals alone when the customer does not exist |
| TpccTerminal.Terminal.Payment | scripts/TrafodionLiteTpccTransactions.java:392-428 | commits the Payment step, with all that was open, exactly when the customer exists; refused, it leaves the two totals raised in the open transaction; after a database error it goes back to the last commit; in every case the session changes as `Do` says |
| TpccTerminal.SearchQueue | scripts/TrafodionLiteTpccTransactions.java:481-503 | the loop leaves the cursor where the search function says, or where a database error stopped it, and changes nothing else |
| TpccTerminal.DeliverFound | scripts/TrafodionLiteTpccTransactions.java:504-577 | the statements after the search: the delivered order, or what they leave when a row is missing |
| TpccTerminal.RefusedBySearch | scripts/TrafodionLiteTpccTransactions.java:479-583 | with consistent tables a refused Delivery leaves nothing but the moved cursor |
| TpccTerminal.Terminal.Delivery | scripts/TrafodionLiteTpccTransactions.java:479-583 | commits the Delivery step exactly when its search finds an order with its rows; a database error at any lookup or behind the search goes back to the last commit with the cursor where the search was; otherwise it is refused; in consistent tables the session changes as `Do` says |
| TpccTerminal.ReadStatus | scripts/TrafodionLiteTpccTransactions.java:430-477 | with consistent tables and maps: answers exactly when the formula finds an order up to the greater of orders and customers, and the map knows an order or the formula has none beyond the loaded ones; then reports the customer's last order, all its lines and the balance |
| TpccTerminal.Terminal.OrderStatus | scripts/TrafodionLiteTpccTransactions.java:430-477 | the same answer; it commits what the transaction had open exactly when there is one; a database error goes back to the last commit |
| TpccTerminal.WindowKeys | scripts/TrafodionLiteTpccTransactions.java:594-613 | the nested loops compute the derived item set |
| TpccTerminal.ReadStock | scripts/TrafodionLiteTpccTransactions.java:585-656 | with consistent tables and the window known: never fails for an existing district, and counts the items of the last twenty orders below the threshold |
| TpccTerminal.RunLowStock | scripts/TrafodionLiteTpccTransactions.java:635-645 | after every run nothing is below a threshold of ten or less, and everything is below one above a hundred |
| TpccTerminal.Terminal.StockLevel | scripts/TrafodionLiteTpccTransactions.java:585-656 | the same answer; it commits what the transaction had open exactly when there is one; a database error goes back to the last commit |
| LoaderResume.AttemptKeeps | scripts/TrafodionLiteTpcc.java:222-231 | the count-only test is sound: a table that only held planned rows is complete when the count is right |
| LoaderResume.RunKeepsPlanned | scripts/TrafodionLiteTpcc.java:370-536 | a run, interrupted or not, leaves only planned rows; a finished one leaves all of them |
| LoaderResume.ResumeCompletes | scripts/TrafodionLiteTpcc.java:222-305 | after any number of interrupted runs and any committed chunks, a finished run leaves every table with exactly its planned rows |
| LoaderResume.Loader.ResetPartial | scripts/TrafodionLiteTpcc.java:222-231 | keeps the table if the count is right, empties it otherwise |
| LoaderResume.Loader.InsertRows | scripts/TrafodionLiteTpcc.java:233-258 | an attempt at the table in the sense of `Attempt`, stopping only between batches, done unless interrupted |
| LoaderResume.Loader.InsertPrepared | scripts/TrafodionLiteTpcc.java:260-297 | the same for the row-by-row loop with a pending batch |
| LoaderResume.Loader.LoadChunks | scripts/TrafodionLiteTpcc.java:129-167 | an attempt at the table whatever chunks the workers commit in whatever order; no chunk meets a row already there |
| LoaderResume.Loader.LoadTables | scripts/TrafodionLiteTpcc.java:547-566 | table after table, stopping at the first that was not finished, is a run in the sense of `RunAttempt`; it finishes unless it is interrupted or a worker leaves a chunk out |
| LoaderPlans.DistrictPlan | scripts/TrafodionLiteTpcc.java:395-409 | the chunk loop covers its range without overlap, whatever the step |
| LoaderPlans.TablePlan | scripts/TrafodionLiteTpcc.java:389-438 | the chunks of a table are disjoint, hold exactly the rows of its ranges, and as many as counted |
| LoaderPlans.PlainCount | scripts/TrafodionLiteTpcc.java:389-391 | the expected count is warehouses times districts times numbers |
| LoaderPlans.ExpectedOrderLines | scripts/TrafodionLiteTpcc.java:316-323 | the triple loop counts the planned order lines |
| LoaderPlans.TaskRange | scripts/TrafodionLiteTpcc.java:350-352 | task i of a parallel load gets the i-th range of the chunk loop |
| LoaderPlans.TaskCount | scripts/TrafodionLiteTpcc.java:348-349 | the rounded-up quotient is the number of ranges |
| LoaderPlans.DistrictRowsAre | scripts/TrafodionLiteTpcc.java:555-563 | dividing the running index gives every district of every warehouse once |
| LoaderPlans.PairsSize | scripts/TrafodionLiteTpcc.java:353-360 | a number chunk selects one seed pair per number up to a million |
| LoaderPlans.NumbersAre | scripts/TrafodionLiteTpcc.java:353-356 | and the numbers are exactly those of its range |
| LoaderPlans.DomainLimit | scripts/TrafodionLiteTpcc.java:344-364 | the affected-row test of every chunk passes exactly for at most a million numbers |
| LoaderPlans.OneTooMany | scripts/TrafodionLiteTpcc.java:344-364 | a million and one numbers in chunks of a thousand fail it |
| LoaderPlans.ChunksAreLoaded | scripts/TrafodionLiteTpcc.java:389-528 | the rows of the chunks are exactly the keys of the loaded CUSTOMER, ORDERS, NEW_ORDER, STOCK and ORDER_LINE tables, and no others |
| LoaderPlans.ResumedLoad | scripts/TrafodionLiteTpcc.java:547-566 | from empty tables, after any interrupted runs and a finished one, each of the nine tables holds exactly the keys of the loaded state, and no other row |
| LoaderPlans.LoadAll | scripts/TrafodionLiteTpcc.java:370-566 | a run over the nine tables with the row counts the loader computes is a run of the planned chunks, whatever the workers commit |
| LoaderPlans.ExpectedRows | scripts/TrafodionLiteTpcc.java:371-506 | the computed row counts are those of the planned chunks |
| LoaderPlans.HistoryIdIs | scripts/TrafodionLiteTpcc.java:417-434 | a running H_ID belongs to exactly one customer |
| LoaderPlans.HistoryIds | scripts/TrafodionLiteTpcc.java:417-434 | the customers that are loaded have the numbers 1 to their count |
| LoaderPlans.HistoryIdTaken | scripts/TrafodionLiteTpcc.java:417-434 | and every one of these numbers is taken |
| TandemFloat.ToT16Keeps | win-odbc64/Common/nskieee.cpp:269-303 | IEEE to T16 keeps sign, significand and exponent of the number for exponents 768 to 1278 |
| TandemFloat.ToIeeeKeeps | win-odbc64/Common/nskieee.cpp:235-264 | T16 to IEEE keeps the number but for the two lowest fraction bits |
| TandemFloat.DoubleRoundTrip | win-odbc64/Common/nskieee.cpp:235-303 | for every word: IEEE to T16 and back restores the bytes exactly for exponents 768 to 1278, or for a byte palindrome with both exponents zero |
| TandemFloat.T16RoundTrip | win-odbc64/Common/nskieee.cpp:235-303 | T16 to IEEE and back clears exactly the two lowest fraction bits for every nonzero exponent |
| TandemFloat.T16Restored | win-odbc64/Common/nskieee.cpp:235-303 | for every word: T16 to IEEE and back restores it exactly with a nonzero exponent and the two lowest fraction bits clear, or for a byte palindrome with both exponents zero |
| TandemFloat.NegativeZeroSwapped | win-odbc64/Common/nskieee.cpp:276-281 | negative zero stays byte-swapped |
| TandemFloat.SingleRoundTrip | win-odbc64/Common/nskieee.cpp:309-362 | IEEE single to T16 and back clears exactly the lowest fraction bit for exponents 1 to 253 |
| TandemFloat.SingleRefused | win-odbc64/Common/nskieee.cpp:309-362 | larger exponents are converted and refused on the way back |
| TandemFloat.ToT16SKeeps | win-odbc64/Common/nskieee.cpp:342-362 | IEEE single to T16 keeps sign and exponent and cuts off the lowest fraction bit, for every nonzero exponent |
| TandemFloat.ToIeeeSKeeps | win-odbc64/Common/nskieee.cpp:309-337 | T16 single to IEEE keeps the number for exponents 130 to 382 |
| TandemFloat.SingleRestored | win-odbc64/Common/nskieee.cpp:309-362 | for every word: IEEE single to T16 and back restores the bytes exactly for exponents 1 to 253 with a clear lowest bit, or for a byte palindrome with both exponents zero |
| TandemFloat.T16SingleRoundTrip | win-odbc64/Common/nskieee.cpp:309-362 | for every word: T16 single to IEEE and back restores it exactly for exponents 130 to 382, or for a byte palindrome with both exponents zero |
| TandemBuffer.ByteSwap | win-odbc64/Common/nskieee.cpp:84-101 | reverses an even number of bytes in place, leaves an odd number alone |
| TandemBuffer.ConvFloat64ToIeee | win-odbc64/Common/nskieee.cpp:235-264 | the eight bytes written are the word `ToIeee` computes |
| TandemBuffer.ConvIeeeToFloat64 | win-odbc64/Common/nskieee.cpp:269-303 | status and bytes are those of `ToT16` |
| TandemBuffer.ConvFloat32ToIeee | win-odbc64/Common/nskieee.cpp:309-337 | status and bytes are those of `ToIeeeS` |
| TandemBuffer.ConvIeeeToFloat32 | win-odbc64/Common/nskieee.cpp:342-362 | status and bytes are those of `ToT16S` |
| DiagnosticsSwap.ShortcutIsSwap | win-odbc64/Common/swap.cpp:131-159 | leaving 0 and -1 alone is the same as swapping them |
| DiagnosticsSwap.LongSwap | win-odbc64/Common/swap.cpp:131-159 | reverses four bytes in place when swapping is on, and touches nothing else |
| DiagnosticsSwap.SwapCondition | win-odbc64/Common/swap.cpp:347-364 | converts the three numbers of one condition and steps over its text and SQLSTATE |
| DiagnosticsSwap.SwapMessage | win-odbc64/Common/swap.cpp:328-367 | turns the big-endian message of any list of conditions into the little-endian one and ends at its length |
| DiagnosticsSwap.ParseEncoded | win-odbc64/Common/swap.cpp:328-367 | reading the converted message gives back the list |
| DiagnosticsSwap.OneCondition | win-odbc64/Common/swap.cpp:328-367 | the bytes of a message with one condition |
| CatalogKeys.DecodeEncoded | scripts/lite-metadata-key-migration-test.cpp:24-60 | decoding an encoded key gives the key |
| CatalogKeys.EncodeDecoded | scripts/lite-metadata-key-migration-test.cpp:37-60 | only encodings decode, each to the key it encodes |
| CatalogKeys.HexAlphabet | scripts/lite-metadata-key-migration-test.cpp:24-44 | the digits are "0123456789abcdef" in order, and no other character is one |
| CatalogKeys.EncodeOrder | scripts/lite-metadata-key-migration-test.cpp:24-35 | encoding preserves and reflects the byte order |
| CatalogKeys.EncodePrefix | scripts/lite-metadata-key-migration-test.cpp:19-35 | encoding preserves and reflects prefixes |
| CatalogKeys.PhysicalOrder | scripts/lite-metadata-key-migration-test.cpp:62-65 | so do stored keys, and they are unique |
| CatalogKeys.HexEncode | scripts/lite-metadata-key-migration-test.cpp:24-35 | the loop computes the encoding |
| CatalogKeys.HexDecode | scripts/lite-metadata-key-migration-test.cpp:46-60 | the loop decodes, and fails exactly on odd lengths and characters that are no digits |
| CatalogKeys.PrefixScan | scripts/lite-metadata-key-migration-test.cpp:86-98 | seeking and stopping at the first key without the prefix visits exactly the keys a filter selects, in order |
| CatalogKeys.StoredOrder | scripts/lite-metadata-key-migration-test.cpp:62-65 | a catalog is in stored order exactly when it is in logical order |
| CatalogKeys.StoredFilter | scripts/lite-metadata-key-migration-test.cpp:165-191 | selecting stored keys by stored prefix is selecting logical keys by logical prefix |
| CatalogKeys.MatchIsEntry | scripts/lite-metadata-key-migration-test.cpp:172-183 | a stored key found below a stored prefix that decodes is the key of an entry below the prefix |
| CatalogMigration.DowngradePrefix | scripts/lite-metadata-key-migration-test.cpp:83-126 | one prefix: fails exactly when a key below it does not decode; otherwise all keys below it go, and one value stays under the legacy key exactly when there was a key and the legacy key was not stored or stood first, and which |
| CatalogMigration.NamesSpelled | scripts/lite-metadata-key-migration-test.cpp:62-145 | prefixes, legacy key, format tag and marker as they are spelled |
| CatalogMigration.Downgrade | scripts/lite-metadata-key-migration-test.cpp:77-139 | both prefixes and the marker: every key of the database after the batch, or no change exactly when a key is unreadable |
| CatalogMigration.LegacyLost | scripts/lite-metadata-key-migration-test.cpp:104-118 | a catalog with the legacy key behind another entry loses both |
| CatalogMigration.CountMigrated | scripts/lite-metadata-key-migration-test.cpp:162-191 | fails exactly when a key below the prefix is not the stored form of an entry of the new format; otherwise counts all of them |
| CatalogMigration.Verify | scripts/lite-metadata-key-migration-test.cpp:141-202 | accepts exactly the catalogs with the marker, two column and three key entries, all of the new format |
| CatalogMigration.AcceptedEntries | scripts/lite-metadata-key-migration-test.cpp:141-202 | for stored entries that is a condition on the entries themselves |
| CatalogMigration.DowngradeIsSeen | scripts/lite-metadata-key-migration-test.cpp:77-202 | whatever the catalog held, and even with the marker put back, a downgraded one is not accepted |
| TempMemory.OthersHave | win-odbc64/Common/TransportBase.cpp:181-199 | what remains after removal by call is every block of another call, and no other |
| TempMemory.Registry.AddMem | win-odbc64/Common/TransportBase.cpp:120-141 | appends at the end of the list; the length counts it |
| TempMemory.Registry.DelAll | win-odbc64/Common/TransportBase.cpp:142-155 | empties list and length |
| TempMemory.Registry.DelBlock | win-odbc64/Common/TransportBase.cpp:157-179 | unlinks exactly the block, the others in order; false exactly when it is not there |
| TempMemory.Registry.DelCall | win-odbc64/Common/TransportBase.cpp:181-199 | terminates and leaves the old list without the blocks of the call, in order |
| TempMemory.Registry.DelPointer | win-odbc64/Common/TransportBase.cpp:211-227 | removes the first block at the address, and says whether there was one |

## Left out

- DecimalText.ConvAsciiToDec: texts with an exponent end in a status of their own, because that branch goes through floating-point parsing with `pow` and double rounding.
- DecimalPrint.ConvLargeDecToAscii: models the fixed-length target with left padding that the BigNum printer asks for; the variable-length and right-padding modes and the branch for a first byte below 2 are not reached from it.
- DecimalPrint.ConvLargeDecToAscii: asks for a target buffer with room for what the converter writes, as its callers provide; the converter itself does not check.
- BigNumCodec.ConvAsciiToBigNum: ends in the same status for texts with an exponent; works on 16-bit limbs; the view of the same memory as bytes, and odd byte lengths, are not modelled.
- IntervalCodec.ConvIntervalToAscii: does not cover the value -2^63, whose negation overflows in the source, nor fraction precisions above 18, where the divisor does.
- Int64Text.ConvInt64ToAscii: a negative number with left padding and no leading sign leaves one character of the field as it was; the field function says so.
- TpccSessions.SessionMoney: terminals act one after the other on the committed state; write conflicts between open transactions end in a rollback, which is the step `Abort`.
- TpccTerminal.Terminal.NewOrder: the list of unique items is the list of items, since the five item numbers differ.
- TpccTerminal.Terminal.StockLevel: the counters of range scans, point reads and batch reads are not modelled.
- TpccTerminal.Terminal.NewOrder: a database error is one flag for all statements and the commit, since each of them ends in the same rollback; the same holds for the other transactions, except inside the search of Delivery.
- TpccTerminal.Terminal.Delivery: is compared with the session for a terminal that is alone in it.
- TpccMoney.RunMoney: history rows are a sequence without their H_ID keys.
- LoaderResume.Loader.LoadChunks: threads and connections are a sequence of commits in any order, with any of them missing.
- LoaderPlans.ResumedLoad: is about keys; HISTORY rows are identified by their customer, which `HistoryIdIs` makes the same as by H_ID; and the two number tables, dropped at the end, are covered by `DomainLimit` and the row loops.
- CatalogMigration.Verify: errors of the storage engine while reading are not modelled.
- DiagnosticsSwap.SwapMessage: is about well-formed messages; the source checks no bounds, so a malformed one has no defined result.
- TempMemory.Registry.AddMem: allocation does not fail.
- TandemBuffer.ConvFloat64ToIeee: the exponent is held in 16 bits, which its values never exceed; the single formats keep the 32-bit wrap-around.
- The 32-bit width of Java integers in the TPC-C formulas: numbers are unbounded here, which agrees with the source for order numbers below 58 million.
- SQL text, JDBC, retries, timing and the storage engine: a committed transaction is one step, a rolled-back one changes no table, and what a refused one leaves open is a step when it is published.
- Interval parsing: the body of its field parser is commented out in the source.
- Marshalling, sockets, compression, character-set translation, logging and user interfaces: straight-line field copies, system calls or constant tables.

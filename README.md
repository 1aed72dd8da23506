# Landing-page interaction logic in Dafny

This project models the three pieces of deterministic state logic in the
marketing site's React components and proves properties of them.

- **FAQ** (`faq.dfy`, module `Faq`). The question table `FAQS`. The category
  buttons, derived from the table as its distinct categories in first-seen
  order. The filtered list of the selected category. A single-open
  accordion over that list. The component's two state hooks,
  `selectedCategory` and `activeIndex`, are the fields of the class
  `FaqSection`. Its methods are the category click and the question click.
- **Pricing** (`pricing.dfy`, module `Pricing`). The plan table.
  `calculateSavings`, with `Math.round` modelled exactly over integers. The
  card shown for a plan: its price, its unit and the savings line, which is
  rendered only for yearly billing. The `isYearly` toggle, as the class
  `Billing`.
- **Contact** (`contact.dfy`, module `Contact`). The three-field form record
  and its one-field update. The modal as the class `ContactModal`, holding
  `isOpen` and `formData`. Its methods are the trigger button, the
  non-animated close, the input change handler and the submit handler.
- `wrappers.dfy` (module `Wrappers`) holds the `Option` type used by the
  others.

Modelling choices:

- JavaScript's `Math.round(x)` is `floor(x + 1/2)`. For `x = n/d` with
  `d > 0` it is `(2n + d) / (2d)` in Dafny's floor division. Its meaning is
  stated by `RoundsTo`: `r - 1/2 <= n/d < r + 1/2`, written without
  fractions.
- A JavaScript division by zero does not fail. It gives an infinity or
  NaN. The percentage is therefore a `Percentage` value: `Finite(v)`,
  `PosInfinity`, `NegInfinity` or `NaN`. The missing zero guard in
  `calculateSavings` is a path of the model, not a precondition.
- `calculateSavings` has no clamp of a negative saving and no guard for a
  zero monthly price. The model follows the code:
  `NegativeSavingsAreNotClamped` and `ZeroMonthlyPriceIsNotGuarded` state
  what it computes in those cases.
- The initial category is the hard-coded `"General"`, not a value read
  from the derived list. The model uses `"General"` and proves that it is
  the first derived category of the page's table (`FaqCategories`).
- `FaqSection.Valid` (nothing open, or the open index points at a visible
  item) is a reported property, not an invariant the handlers rely on: the
  constructor and `Toggle` establish it, and `SelectCategory` establishes
  it exactly when the chosen category is a derived one.
- The Yearly badge reads "Save 20%". Every plan's computed saving is 17%
  (`PlanTableSavings`).

## Model

| member | source | states |
|---|---|---|
| `Faq.Distinct` | src/components/FAQ.tsx:62 | `Array.from(new Set(xs))`: never longer than the input and holding only its values; its full characterisation is `DistinctIsFirstSeenOrder` |
| `Faq.DistinctFirstSeen` | src/components/FAQ.tsx:62 | The values Set-deduplication keeps are ordered by their first occurrence in the mapped array |
| `Faq.DistinctIsFirstSeenOrder` | src/components/FAQ.tsx:62 | Turning the Set of the mapped values back into an array gives each value once, gives exactly the values of the input, and orders them by first occurrence |
| `Faq.Categories` | src/components/FAQ.tsx:62 | The category buttons are at most as many as the items, and each is the category of some item |
| `Faq.CategoriesAreTheItemCategories` | src/components/FAQ.tsx:62 | The category buttons have no repeats; a category has a button iff some item carries it; buttons follow the first-seen order of the table |
| `Faq.Filtered` | src/components/FAQ.tsx:63 | The filtered list is never longer than the table, and holds only table items of the selected category |
| `Faq.FilteredIsOrderedSubsequence` | src/components/FAQ.tsx:63 | The filtered list is the table picked at strictly increasing positions, and those positions are exactly the ones whose category is the selected one |
| `Faq.FilteredNonEmptyIffCategory` | src/components/FAQ.tsx:62-63 | The filtered list is non-empty iff the category is one of the derived buttons, so resetting to index 0 on a button click always points at an item |
| `Faq.FaqCategories` | src/components/FAQ.tsx:7-62 | The table's buttons are General, Security, Features, Pricing, Integration, Deployment, Technical, in that order, and the initial category "General" is the first |
| `Faq.FaqPricingQuestions` | src/components/FAQ.tsx:26-37 | Selecting "Pricing" lists the team question and then the free-trial question |
| `Faq.FaqOtherCategories` | src/components/FAQ.tsx:7-56 | Every button other than "Pricing" lists exactly one question |
| `Faq.ToggleIndex` | src/components/FAQ.tsx:129-131 | A question click yields -1 or the clicked index, and -1 exactly when the clicked question was the open one |
| `Faq.ToggleTwice` | src/components/FAQ.tsx:129-131 | Two clicks on the same question leave it open iff it was open before, with nothing else open |
| `Faq.OpenFlags` | src/components/FAQ.tsx:145-160 | One expanded flag per visible item, and item k is expanded iff k equals the open index (`activeIndex === index`) |
| `Faq.AtMostOneOpen` | src/components/FAQ.tsx:145-160 | Since an item is expanded iff its position equals the open index, no two items are expanded; one is expanded iff the open index is within the visible list |
| `Faq.FaqSection.Visible` | src/components/FAQ.tsx:63 | The rendered questions are table items of the selected category, never more than the table holds |
| `Faq.FaqSection.OpenItems` | src/components/FAQ.tsx:145-160 | One expanded flag per rendered question; question k is expanded iff k is the open index, no two are expanded, and one is expanded iff the open index points into the rendered list |
| `Faq.FaqSection.constructor` | src/components/FAQ.tsx:59-60 | Mounted over a table in which "General" is a derived category, the section selects "General", opens index 0, and that index points at the first visible item, which is expanded; the page's own table meets the condition (`FaqCategories`) |
| `Faq.FaqSection.SelectCategory` | src/components/FAQ.tsx:94-97 | A category click sets the category and resets the open index to 0 whatever the previous state; the open index then points at an item iff the category is a derived one |
| `Faq.FaqSection.Toggle` | src/components/FAQ.tsx:129-131 | A question click keeps the category and flips the clicked item's expanded state; every other item ends collapsed, and the open index stays valid |
| `Pricing.RoundHalfUp` | src/components/Pricing.tsx:87 | Math.round of a quotient with positive divisor is the nearest integer, halves rounded up |
| `Pricing.RoundsToIsUnique` | src/components/Pricing.tsx:87 | At most one integer is the rounded value of a quotient, so the rounding is determined |
| `Pricing.RoundRatio` | src/components/Pricing.tsx:87 | Math.round of a quotient: finite and correctly rounded for a non-zero divisor; for a zero divisor, a positive infinity, a negative infinity or NaN according to the sign of the dividend |
| `Pricing.CalculateSavings` | src/components/Pricing.tsx:84-89 | The amount plus the yearly price is twelve monthly prices; with a positive monthly price the percentage is the amount over twelve monthly prices, times 100, rounded; with a zero monthly price it is not finite |
| `Pricing.SavingsPercentageBounds` | src/components/Pricing.tsx:84-89 | With a positive monthly price the percentage has the sign of the amount (no clamp), and it is at most 100 when the yearly price is not negative |
| `Pricing.TenMonthsForTwelve` | src/components/Pricing.tsx:84-89 | A yearly price of ten monthly prices saves two monthly prices, which rounds to 17% |
| `Pricing.NegativeSavingsAreNotClamped` | src/components/Pricing.tsx:84-89 | At 100 a month and 1300 a year the amount is -100 and the percentage -8 |
| `Pricing.ZeroMonthlyPriceIsNotGuarded` | src/components/Pricing.tsx:85-87 | A zero monthly price gives negative infinity, positive infinity or NaN according to the yearly price, never a number |
| `Pricing.PlanTableSavings` | src/components/Pricing.tsx:15-155 | Every plan has a positive monthly price and a yearly price of ten monthly prices; its savings are two monthly prices and 17%, which is not the advertised 20% |
| `Pricing.ExactlyOnePopularPlan` | src/components/Pricing.tsx:23-65 | A plan is popular iff it is Professional; no two plans are popular |
| `Pricing.Card` | src/components/Pricing.tsx:166-232 | A card shows the yearly price and "/year" when yearly billing is on, else the monthly price and "/month"; its savings line is present iff yearly billing is on, and then it is `calculateSavings` of the plan's monthly and yearly prices |
| `Pricing.YearlyLineMatchesShownPrices` | src/components/Pricing.tsx:166-231 | The yearly card's savings amount is twelve times the monthly card's price minus the yearly card's price |
| `Pricing.Billing.constructor` | src/components/Pricing.tsx:13 | Billing starts monthly |
| `Pricing.Billing.ChooseMonthly` | src/components/Pricing.tsx:131 | The Monthly button selects monthly billing from any state |
| `Pricing.Billing.ChooseYearly` | src/components/Pricing.tsx:141 | The Yearly button selects yearly billing from any state |
| `Pricing.Billing.Cards` | src/components/Pricing.tsx:164-170 | One card per plan, in table order, each computed for the current toggle |
| `Pricing.Billing.Badge` | src/components/Pricing.tsx:149-157 | The Yearly button carries a badge iff yearly billing is selected, and the badge reads 20% |
| `Pricing.YearlyBadgeDisagreesWithCards` | src/components/Pricing.tsx:149-231 | With yearly billing the badge reads 20% while every card's savings line reads two monthly prices and 17% |
| `Contact.FieldNamed` | src/components/Contact.tsx:184-220 | An input name that is recognised leads to the input that carries that name |
| `Contact.FieldNameRoundTrip` | src/components/Contact.tsx:184-220 | The three inputs carry different names, and each name leads back to its input |
| `Contact.WithField` | src/components/Contact.tsx:72-77 | The copied record holds the new value in the changed input and the old values in the other two |
| `Contact.WithFieldIdempotent` | src/components/Contact.tsx:73-76 | The same change applied twice gives the same record as applied once |
| `Contact.WithFieldLastWins` | src/components/Contact.tsx:73-76 | A later change to an input overrides an earlier one |
| `Contact.WithFieldCommutes` | src/components/Contact.tsx:73-76 | Changes to two different inputs can be applied in either order |
| `Contact.WithFieldCurrentValue` | src/components/Contact.tsx:73-76 | Writing the value an input already shows leaves the record unchanged |
| `Contact.ContactModal.constructor` | src/components/Contact.tsx:8-16 | The modal starts closed with all three inputs empty |
| `Contact.ContactModal.Open` | src/components/Contact.tsx:85 | The trigger button opens the modal and keeps the form |
| `Contact.ContactModal.CloseModal` | src/components/Contact.tsx:57-58 | Without the animation library the modal closes at once and keeps the form |
| `Contact.ContactModal.HandleChange` | src/components/Contact.tsx:72-77 | An edit of an input, once its name has been looked up, sets that input to the new value and leaves the other two inputs and the open flag unchanged |
| `Contact.ContactModal.HandleChangeByName` | src/components/Contact.tsx:72-77 | The change event looks up the input by its name attribute: a recognised name updates that input only, as `HandleChange` does; the open flag is kept |
| `Contact.ContactModal.HandleSubmit` | src/components/Contact.tsx:62-70 | Submission hands over the form as it was, empties all three inputs and closes the modal |

## Left out

- Rendering, styling and animation: framer-motion props, Tailwind classes, icons and the GSAP timelines have no effect on the modelled state. The plan fields `icon`, `gradient`, `bgGradient` and `borderColor` are styling and are not in the `Plan` record.
- Pricing.CalculateSavings: computes over exact rationals. The source divides and multiplies in floating point before `Math.round`, so a ratio whose exact value is a half could round the other way. This does not arise for the plan table.
- Pricing.RoundRatio: does not model JavaScript's negative zero (`Math.round(-0.4)` is `-0`, which prints as `0`). It is `Finite(0)` here.
- Faq.FaqSection.Toggle: requires the clicked index to be a position of the visible list, because the click handler is only attached to rendered items.
- Contact.ContactModal.CloseModal: models only the branch taken without the GSAP library. The animated branch closes in an asynchronous `onComplete` callback after the timeline ends. That is a timer-driven effect and is not modelled.
- Contact.ContactModal.HandleChangeByName: for a name that none of the three inputs carries, the spread in the source would add an extra key to the form object. The model keeps only the three inputs, so that extra key is not represented.
- Contact.ContactModal.HandleSubmit: the `console.log` of the form is I/O. It is modelled by returning the submitted record.
- Contact.ContactModal.HandleSubmit: its promise that the modal is closed on return holds only for the non-animated close it calls. With the GSAP library present, the modal stays open until the timeline's `onComplete` callback runs, which is not modelled.
- React batches state updates and handlers read their closure's copy of the state. The model applies each handler to the current state atomically.
- The hero scene, loader, feature and agent sections, header, video modal, call-to-action, page composition, logo and reduced-motion hook are rendering, DOM and timer code. They are not part of this model.
